/** `parse_bergfex_datetime`: the relative "today"/"yesterday" forms and the
    absolute `D.M.[YYYY][,|.] H:MM` form of the Bergfex last-update stamp,
    with the year inferred when the page leaves it out.

    The two regular expressions of the parser are given here twice: as a
    grammar over positions of the string (`TimeShape`, `DateShape`), and as a
    deterministic left-to-right scanner (`TimeAt`, `MatchDateAt`) proved to
    find exactly the grammar's matches. Python's `re.search` returns the
    leftmost match; at a fixed start the grammar admits at most one match, so
    backtracking order cannot change which fields are captured. */
module DateParser {
  import opened Builtins
  import opened Calendar

  predicate DigitsAt(s: string, i: nat, n: nat) {
    i + n <= |s| && forall k :: i <= k < i + n ==> IsDigit(s[k])
  }

  predicate SpacesAt(s: string, i: nat, n: nat) {
    i + n <= |s| && forall k :: i <= k < i + n ==> IsSpace(s[k])
  }

  predicate CharAt(s: string, i: nat, c: char) {
    i < |s| && s[i] == c
  }

  /** The greedy `\d{1,max}` at `i`: as many digits as there are, up to `max`. */
  function DigitRun(s: string, i: nat, max: nat): nat
    requires i <= |s|
  {
    var n := DigitSpan(s, i);
    if n < max then n else max
  }

  lemma DigitRunFacts(s: string, i: nat, max: nat)
    requires i <= |s|
    ensures DigitRun(s, i, max) <= max && DigitsAt(s, i, DigitRun(s, i, max))
    ensures DigitRun(s, i, max) < max ==> !(i + DigitRun(s, i, max) < |s| && IsDigit(s[i + DigitRun(s, i, max)]))
  {
    DigitSpanFacts(s, i);
  }

  /** A digit run is determined by the digits and the first non-digit. */
  lemma DigitRunIs(s: string, i: nat, n: nat, max: nat)
    requires i <= |s| && n <= max && DigitsAt(s, i, n)
    requires n < max ==> i + n < |s| && !IsDigit(s[i + n])
    ensures DigitRun(s, i, max) == n
  {
    DigitSpanFacts(s, i);
  }

  /** A blank run is determined by the blanks and the first non-blank. */
  lemma SpaceRunIs(s: string, i: nat, g: nat)
    requires SpacesAt(s, i, g) && i + g < |s| && !IsSpace(s[i + g])
    ensures SpaceRun(s, i) == g
  {
    SpaceRunFacts(s, i);
  }

  lemma DigitNotSpace(c: char)
    requires IsDigit(c)
    ensures !IsSpace(c)
  {
  }

  /** The value of the `n` digits at `i`. */
  function DigitsValue(s: string, i: nat, n: nat): nat
    requires DigitsAt(s, i, n)
  {
    var u := s[i..i + n];
    assert forall k :: 0 <= k < |u| ==> u[k] == s[i + k];
    DecimalValue(u)
  }

  // ---------------------------------------------------------------------
  // (\d{1,2}):(\d{2})
  // ---------------------------------------------------------------------

  /** `(\d{1,2}):(\d{2})` matches at `i`, its hour group having `hourLen` digits. */
  predicate TimeShape(s: string, i: nat, hourLen: nat) {
    1 <= hourLen <= 2 && DigitsAt(s, i, hourLen) && CharAt(s, i + hourLen, ':')
    && DigitsAt(s, i + hourLen + 1, 2)
  }

  /** The scanner for `(\d{1,2}):(\d{2})` at `i`: the hour's digit count. */
  function TimeAt(s: string, i: nat): Option<nat>
    requires i <= |s|
  {
    var h := DigitRun(s, i, 2);
    if 1 <= h && CharAt(s, i + h, ':') && DigitsAt(s, i + h + 1, 2) then Some(h) else None
  }

  /** The scanner reports only matches. */
  lemma TimeAtSound(s: string, i: nat)
    requires i <= |s|
    ensures TimeAt(s, i).Some? ==> TimeShape(s, i, TimeAt(s, i).value)
  {
    DigitRunFacts(s, i, 2);
  }

  /** The scanner finds every match at `i`, so there is at most one. */
  lemma TimeAtComplete(s: string, i: nat, n: nat)
    requires TimeShape(s, i, n)
    ensures TimeAt(s, i) == Some(n)
  {
    DigitRunIs(s, i, n, 2);
  }

  /** A match of `(\d{1,2}):(\d{2})`: where it starts and how long its hour group is. */
  datatype TimeMatch = TimeMatch(start: nat, hourLen: nat)

  /** `re.search(r"(\d{1,2}):(\d{2})", s)` from position `from`: the leftmost match. */
  function SearchTime(s: string, from: nat): (r: Option<TimeMatch>)
    requires from <= |s|
    ensures r.Some? ==> from <= r.value.start && TimeShape(s, r.value.start, r.value.hourLen)
    ensures r.Some? ==> forall j: nat, n: nat :: from <= j < r.value.start ==> !TimeShape(s, j, n)
    ensures r.None? ==> forall j: nat, n: nat :: from <= j ==> !TimeShape(s, j, n)
    decreases |s| - from
  {
    TimeAtSound(s, from);
    match TimeAt(s, from)
    case Some(h) => Some(TimeMatch(from, h))
    case None =>
      forall n: nat | TimeShape(s, from, n) ensures false {
        TimeAtComplete(s, from, n);
      }
      if from == |s| then None else SearchTime(s, from + 1)
  }

  function HourOf(s: string, t: TimeMatch): nat
    requires TimeShape(s, t.start, t.hourLen)
  {
    DigitsValue(s, t.start, t.hourLen)
  }

  function MinuteOf(s: string, t: TimeMatch): nat
    requires TimeShape(s, t.start, t.hourLen)
  {
    DigitsValue(s, t.start + t.hourLen + 1, 2)
  }

  // ---------------------------------------------------------------------
  // (\d{1,2})\.(\d{1,2})\.(?:\s*(\d{4}))?(?:,|\.)?\s*(\d{1,2}):(\d{2})
  // ---------------------------------------------------------------------

  /** `(\d{1,2})\.` matches at `i` with `n` digits. */
  predicate FieldShape(s: string, i: nat, n: nat) {
    1 <= n <= 2 && DigitsAt(s, i, n) && CharAt(s, i + n, '.')
  }

  /** The scanner for `(\d{1,2})\.`. */
  function FieldAt(s: string, i: nat): Option<nat>
    requires i <= |s|
  {
    var d := DigitRun(s, i, 2);
    if 1 <= d && CharAt(s, i + d, '.') then Some(d) else None
  }

  lemma FieldAtSound(s: string, i: nat)
    requires i <= |s|
    ensures FieldAt(s, i).Some? ==> FieldShape(s, i, FieldAt(s, i).value)
  {
    DigitRunFacts(s, i, 2);
  }

  lemma FieldAtComplete(s: string, i: nat, n: nat)
    requires FieldShape(s, i, n)
    ensures FieldAt(s, i) == Some(n)
  {
    DigitRunIs(s, i, n, 2);
  }

  /** `\s*(\d{4})` matches at `k` after `gap` blanks. */
  predicate YearShape(s: string, k: nat, gap: nat) {
    SpacesAt(s, k, gap) && DigitsAt(s, k + gap, 4)
  }

  /** The scanner for the optional year group `(?:\s*(\d{4}))?`: the blanks before the year. */
  function YearPartAt(s: string, k: nat): Option<nat>
    requires k <= |s|
  {
    SpaceRunFacts(s, k);
    var w := SpaceRun(s, k);
    if DigitRun(s, k + w, 4) == 4 then Some(w) else None
  }

  lemma YearPartAtSound(s: string, k: nat)
    requires k <= |s|
    ensures YearPartAt(s, k).Some? ==> YearShape(s, k, YearPartAt(s, k).value)
  {
    SpaceRunFacts(s, k);
    DigitRunFacts(s, k + SpaceRun(s, k), 4);
  }

  lemma YearPartAtComplete(s: string, k: nat, g: nat)
    requires YearShape(s, k, g)
    ensures YearPartAt(s, k) == Some(g)
  {
    DigitNotSpace(s[k + g]);
    SpaceRunIs(s, k, g);
    DigitRunIs(s, k + g, 4, 4);
  }

  /** How `(?:,|\.)?\s*(\d{1,2}):(\d{2})` cuts the string: the separator's
      length, the blanks, and the hour's digit count. */
  datatype Tail = Tail(sepLen: nat, gap: nat, hourLen: nat)

  predicate TailShape(s: string, p: nat, t: Tail) {
    && t.sepLen <= 1
    && (t.sepLen == 1 ==> CharAt(s, p, ',') || CharAt(s, p, '.'))
    && SpacesAt(s, p + t.sepLen, t.gap)
    && TimeShape(s, p + t.sepLen + t.gap, t.hourLen)
  }

  /** The scanner for the separator, blanks and clock after the date. */
  function TailAt(s: string, p: nat): Option<Tail>
    requires p <= |s|
  {
    var sep := if CharAt(s, p, ',') || CharAt(s, p, '.') then 1 else 0;
    SpaceRunFacts(s, p + sep);
    var g := SpaceRun(s, p + sep);
    match TimeAt(s, p + sep + g)
    case None => None
    case Some(h) => Some(Tail(sep, g, h))
  }

  lemma TailAtSound(s: string, p: nat)
    requires p <= |s|
    ensures TailAt(s, p).Some? ==> TailShape(s, p, TailAt(s, p).value)
  {
    var sep := if CharAt(s, p, ',') || CharAt(s, p, '.') then 1 else 0;
    SpaceRunFacts(s, p + sep);
    TimeAtSound(s, p + sep + SpaceRun(s, p + sep));
  }

  lemma TailAtComplete(s: string, p: nat, t: Tail)
    requires TailShape(s, p, t)
    ensures TailAt(s, p) == Some(t)
  {
    var q := p + t.sepLen + t.gap;
    DigitNotSpace(s[q]);
    if t.sepLen == 0 {
      assert IsDigit(s[p]) || IsSpace(s[p]);
    }
    SpaceRunIs(s, p + t.sepLen, t.gap);
    TimeAtComplete(s, q, t.hourLen);
  }

  /** Where four digits follow the month, the pattern cannot skip the year
      group: the clock cannot start inside those digits. */
  lemma YearNotSkipped(s: string, k: nat, g: nat, t: Tail)
    requires YearShape(s, k, g)
    ensures !TailShape(s, k, t)
  {
    if TailShape(s, k, t) {
      var q := k + t.sepLen + t.gap;
      DigitNotSpace(s[k + g]);
      DigitNotSpace(s[q]);
    }
  }

  /** `(?:\s*(\d{4}))?(?:,|\.)?\s*(\d{1,2}):(\d{2})` matches at `k`: with the
      year group (after `gap` blanks) when `hasYear`, without it otherwise. */
  predicate YearTailShape(s: string, k: nat, gap: nat, hasYear: bool, t: Tail) {
    && (if hasYear then YearShape(s, k, gap) else gap == 0)
    && TailShape(s, if hasYear then k + gap + 4 else k, t)
  }

  /** The scanner for everything after the month's dot. The year group is
      tried first, as the greedy `?` does. */
  function YearTailAt(s: string, k: nat): Option<(nat, bool, Tail)>
    requires k <= |s|
  {
    YearPartAtSound(s, k);
    match YearPartAt(s, k)
    case Some(g) =>
      (match TailAt(s, k + g + 4)
       case None => None
       case Some(t) => Some((g, true, t)))
    case None =>
      match TailAt(s, k)
      case None => None
      case Some(t) => Some((0, false, t))
  }

  lemma YearTailAtSound(s: string, k: nat)
    requires k <= |s|
    ensures YearTailAt(s, k).Some? ==> var (g, y, t) := YearTailAt(s, k).value; YearTailShape(s, k, g, y, t)
  {
    YearPartAtSound(s, k);
    match YearPartAt(s, k)
    case Some(g) => TailAtSound(s, k + g + 4);
    case None => TailAtSound(s, k);
  }

  lemma YearTailAtComplete(s: string, k: nat, g: nat, y: bool, t: Tail)
    requires YearTailShape(s, k, g, y, t)
    ensures YearTailAt(s, k) == Some((g, y, t))
  {
    if y {
      YearPartAtComplete(s, k, g);
      TailAtComplete(s, k + g + 4, t);
    } else {
      YearPartAtSound(s, k);
      if YearPartAt(s, k).Some? {
        YearNotSkipped(s, k, YearPartAt(s, k).value, t);
      }
      TailAtComplete(s, k, t);
    }
  }

  /** How a match of the absolute pattern cuts the string: the start, the
      length of each variable piece, and whether the year group took part. */
  datatype DateCut = DateCut(start: nat, dayLen: nat, monthLen: nat, yearGap: nat,
                             hasYear: bool, tail: Tail)
  {
    function MonthAt(): nat { start + dayLen + 1 }
    /** Just after the dot that ends the month. */
    function AfterMonth(): nat { MonthAt() + monthLen + 1 }
    function YearAt(): nat { AfterMonth() + yearGap }
    function SepAt(): nat { if hasYear then YearAt() + 4 else AfterMonth() }
    function HourAt(): nat { SepAt() + tail.sepLen + tail.gap }
    function Clock(): TimeMatch { TimeMatch(HourAt(), tail.hourLen) }
  }

  /** The absolute pattern matches `s` as cut by `c`. */
  predicate DateShape(s: string, c: DateCut) {
    && FieldShape(s, c.start, c.dayLen)
    && FieldShape(s, c.MonthAt(), c.monthLen)
    && YearTailShape(s, c.AfterMonth(), c.yearGap, c.hasYear, c.tail)
  }

  /** The day and month fields `(\d{1,2})\.(\d{1,2})\.` at `i`: their digit counts. */
  function DayMonthAt(s: string, i: nat): Option<(nat, nat)>
    requires i <= |s|
  {
    FieldAtSound(s, i);
    match FieldAt(s, i)
    case None => None
    case Some(d) =>
      match FieldAt(s, i + d + 1)
      case None => None
      case Some(m) => Some((d, m))
  }

  lemma DayMonthAtSound(s: string, i: nat)
    requires i <= |s|
    ensures DayMonthAt(s, i).Some? ==>
              FieldShape(s, i, DayMonthAt(s, i).value.0)
              && FieldShape(s, i + DayMonthAt(s, i).value.0 + 1, DayMonthAt(s, i).value.1)
  {
    FieldAtSound(s, i);
    if FieldAt(s, i).Some? {
      FieldAtSound(s, i + FieldAt(s, i).value + 1);
    }
  }

  /** The scanner for the absolute pattern at position `i`. */
  function MatchDateAt(s: string, i: nat): Option<DateCut>
    requires i <= |s|
  {
    DayMonthAtSound(s, i);
    match DayMonthAt(s, i)
    case None => None
    case Some((d, m)) =>
      match YearTailAt(s, i + d + 1 + m + 1)
      case None => None
      case Some((g, y, t)) => Some(DateCut(i, d, m, g, y, t))
  }

  /** The scanner only reports matches of the pattern. */
  lemma MatchDateAtSound(s: string, i: nat, c: DateCut)
    requires i <= |s| && MatchDateAt(s, i) == Some(c)
    ensures c.start == i && DateShape(s, c)
  {
    DayMonthAtSound(s, i);
    var (d, m) := DayMonthAt(s, i).value;
    YearTailAtSound(s, i + d + 1 + m + 1);
  }

  /** The scanner misses no match: wherever the pattern matches, the scanner
      returns that very cut, so each start admits at most one match. */
  lemma MatchDateAtComplete(s: string, c: DateCut)
    requires DateShape(s, c)
    ensures MatchDateAt(s, c.start) == Some(c)
  {
    FieldAtComplete(s, c.start, c.dayLen);
    FieldAtComplete(s, c.MonthAt(), c.monthLen);
    YearTailAtComplete(s, c.AfterMonth(), c.yearGap, c.hasYear, c.tail);
  }

  lemma NoShapeWithoutMatch(s: string, i: nat)
    requires i <= |s| && MatchDateAt(s, i).None?
    ensures forall c :: DateShape(s, c) ==> c.start != i
  {
    forall c | DateShape(s, c) && c.start == i ensures false {
      MatchDateAtComplete(s, c);
    }
  }

  /** `re.search` of the absolute pattern from position `from`: the leftmost
      match, which is the only match at its start. */
  function SearchDate(s: string, from: nat): (r: Option<DateCut>)
    requires from <= |s|
    ensures r.Some? ==> from <= r.value.start && DateShape(s, r.value)
    ensures r.Some? ==> forall c :: DateShape(s, c) && from <= c.start ==> r.value.start <= c.start
    ensures r.Some? ==> forall c :: DateShape(s, c) && c.start == r.value.start ==> c == r.value
    ensures r.None? ==> forall c :: DateShape(s, c) ==> c.start < from
    decreases |s| - from
  {
    match MatchDateAt(s, from)
    case Some(c) =>
      MatchDateAtSound(s, from, c);
      forall c' | DateShape(s, c') && c'.start == c.start ensures c' == c {
        MatchDateAtComplete(s, c');
      }
      Some(c)
    case None =>
      NoShapeWithoutMatch(s, from);
      if from == |s| then
        forall c | DateShape(s, c) ensures c.start < from {
          assert c.start + c.dayLen <= |s|;
        }
        None
      else SearchDate(s, from + 1)
  }

  function DayOf(s: string, c: DateCut): nat
    requires DateShape(s, c)
  {
    DigitsValue(s, c.start, c.dayLen)
  }

  function MonthOf(s: string, c: DateCut): nat
    requires DateShape(s, c)
  {
    DigitsValue(s, c.MonthAt(), c.monthLen)
  }

  function YearOf(s: string, c: DateCut): nat
    requires DateShape(s, c) && c.hasYear
  {
    DigitsValue(s, c.YearAt(), 4)
  }

  // ---------------------------------------------------------------------
  // parse_bergfex_datetime
  // ---------------------------------------------------------------------

  const TodayWords: seq<string> := ["aujourd", "today", "heute"]
  const YesterdayWords: seq<string> := ["hier", "yesterday", "gestern"]

  /** What `parse_bergfex_datetime` does: return a datetime, return None, or
      raise an exception that is not caught inside it. */
  datatype DateOutcome = Parsed(value: DateTime) | Unparsed | Raised(error: PyError)

  /** `day.replace(hour=h, minute=mi, second=0, microsecond=0)`, which raises
      ValueError for an hour above 23 or a minute above 59. */
  function AtClock(day: DateTime, h: nat, mi: nat): (r: DateOutcome)
    requires Valid(day)
    ensures r.Parsed? ==> Valid(r.value) && r.value.second == 0 && r.value.microsecond == 0
  {
    if h <= 23 && mi <= 59 then Parsed(day.(hour := h, minute := mi, second := 0, microsecond := 0))
    else Raised(ValueError)
  }

  /** Every match of the absolute pattern ends in a match of the clock pattern. */
  lemma DateHasClock(s: string, c: DateCut)
    requires DateShape(s, c)
    ensures TimeShape(s, c.HourAt(), c.tail.hourLen)
  {
  }

  /** The integer values of the groups of a match; `year` is None when
      group 3 did not take part. */
  datatype Groups = Groups(day: nat, month: nat, year: Option<nat>, hour: nat, minute: nat)

  function GroupsOf(s: string, c: DateCut): Groups
    requires DateShape(s, c)
  {
    DateHasClock(s, c);
    Groups(DayOf(s, c), MonthOf(s, c), if c.hasYear then Some(YearOf(s, c)) else None,
           HourOf(s, c.Clock()), MinuteOf(s, c.Clock()))
  }

  /** The datetime built from the groups. Its construction and the year
      roll-back sit inside `try ... except ValueError`, so an impossible date
      yields None; the `now + timedelta(days=180)` overflow is not caught. */
  function FromGroups(g: Groups, now: DateTime): (r: DateOutcome)
    requires Valid(now)
    ensures r.Parsed? ==> Valid(r.value) && r.value.second == 0 && r.value.microsecond == 0
  {
    var year := if g.year.Some? then g.year.value else now.year;
    match Make(year, g.month, g.day, g.hour, g.minute, 0, 0)
    case None => Unparsed
    case Some(result) =>
      if g.year.Some? then Parsed(result)
      else RollBack(result, PlusDays(now, 180), Make(year - 1, g.month, g.day, g.hour, g.minute, 0, 0))
  }

  /** The year inference: `limit` is `now + 180 days` (None when that
      overflows) and `earlier` the same stamp one year back (None when that
      date does not exist). */
  function RollBack(result: DateTime, limit: Option<DateTime>, earlier: Option<DateTime>): DateOutcome {
    match limit
    case None => Raised(OverflowError)
    case Some(l) =>
      if Before(l, result) then
        match earlier
        case None => Unparsed
        case Some(e) => Parsed(e)
      else Parsed(result)
  }

  /** The absolute branch, on the stripped and lowered string. */
  function Absolute(s: string, now: DateTime): DateOutcome
    requires Valid(now)
  {
    match SearchDate(s, 0)
    case None => Unparsed
    case Some(c) => FromGroups(GroupsOf(s, c), now)
  }

  /** `parse_bergfex_datetime(raw)` evaluated at the instant `now`. */
  function ParseBergfexDateTime(raw: string, now: DateTime): (r: DateOutcome)
    requires Valid(now)
    ensures r.Parsed? ==> Valid(r.value) && r.value.second == 0 && r.value.microsecond == 0
  {
    if raw == [] then Unparsed
    else
      var s := Lower(Strip(raw));
      var clock := SearchTime(s, 0);
      if StartsWithAny(s, TodayWords) && clock.Some? then
        AtClock(now, HourOf(s, clock.value), MinuteOf(s, clock.value))
      else if StartsWithAny(s, YesterdayWords) && clock.Some? then
        match PrevDay(now)
        case None => Raised(OverflowError)
        case Some(yesterday) => AtClock(yesterday, HourOf(s, clock.value), MinuteOf(s, clock.value))
      else
        Absolute(s, now)
  }
}
