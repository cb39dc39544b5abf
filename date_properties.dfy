/** What `parse_bergfex_datetime` promises: the relative forms keep the
    clock of the stamp and change only the day, the absolute form reads the
    date back exactly, an inferred year never lands more than 180 days after
    "now", and the only exceptions that escape are the ones Python raises
    outside the `try` block. */
module DateProperties {
  import opened Builtins
  import opened Calendar
  import opened DateParser

  // ---------------------------------------------------------------------
  // Rendering a timestamp the way the site prints it
  // ---------------------------------------------------------------------

  function Pow10(w: nat): nat {
    if w == 0 then 1 else 10 * Pow10(w - 1)
  }

  function DigitChar(d: nat): char
    requires d < 10
  {
    (d + '0' as int) as char
  }

  /** The last `w` decimal digits of `n`, zero-padded: `f"{n:0{w}d}"` for `n < 10^w`. */
  function Fixed(n: nat, w: nat): (r: string)
    ensures |r| == w && forall k :: 0 <= k < |r| ==> IsDigit(r[k])
  {
    if w == 0 then [] else Fixed(n / 10, w - 1) + [DigitChar(n % 10)]
  }

  /** A zero-padded number reads back as itself. */
  lemma {:induction false} FixedValue(n: nat, w: nat)
    requires n < Pow10(w)
    ensures DecimalValue(Fixed(n, w)) == n
  {
    if w > 0 {
      FixedValue(n / 10, w - 1);
      var r := Fixed(n, w);
      assert r[..|r| - 1] == Fixed(n / 10, w - 1);
    }
  }

  /** The site's absolute stamp `DD.MM.YYYY, HH:MM`. */
  function Stamp(t: DateTime): string
    requires Valid(t) && 1000 <= t.year
  {
    Fixed(t.day, 2) + "." + Fixed(t.month, 2) + "." + Fixed(t.year, 4) + ", "
    + Fixed(t.hour, 2) + ":" + Fixed(t.minute, 2)
  }

  /** The cut of a rendered stamp: two-digit day and month, the year right
      after the second dot, a comma and one blank before the clock. */
  const StampCut: DateCut := DateCut(0, 2, 2, 0, true, Tail(1, 1, 2))

  lemma StampShape(t: DateTime)
    requires Valid(t) && 1000 <= t.year
    ensures |Stamp(t)| == 17 && DateShape(Stamp(t), StampCut)
    ensures Stamp(t)[0..2] == Fixed(t.day, 2) && Stamp(t)[3..5] == Fixed(t.month, 2)
    ensures Stamp(t)[6..10] == Fixed(t.year, 4)
    ensures Stamp(t)[12..14] == Fixed(t.hour, 2) && Stamp(t)[15..17] == Fixed(t.minute, 2)
  {
    var s := Stamp(t);
    var a, b, c, d, e := Fixed(t.day, 2), Fixed(t.month, 2), Fixed(t.year, 4), Fixed(t.hour, 2), Fixed(t.minute, 2);
    assert s == a + "." + b + "." + c + ", " + d + ":" + e;
    assert s[0..2] == a && s[3..5] == b && s[6..10] == c && s[12..14] == d && s[15..17] == e;
    assert s[2] == '.' && s[5] == '.' && s[10] == ',' && s[11] == ' ' && s[14] == ':';
    assert forall k :: 0 <= k < 2 ==> s[k] == a[k];
    assert forall k :: 3 <= k < 5 ==> s[k] == b[k - 3];
    assert forall k :: 6 <= k < 10 ==> s[k] == c[k - 6];
    assert forall k :: 12 <= k < 14 ==> s[k] == d[k - 12];
    assert forall k :: 15 <= k < 17 ==> s[k] == e[k - 15];
  }

  /** No character of a stamp is an ASCII capital, so lowering leaves it alone. */
  lemma LowerKeeps(s: string)
    requires forall k :: 0 <= k < |s| ==> !('A' <= s[k] <= 'Z')
    ensures Lower(s) == s
  {
  }

  lemma FirstChar(s: string, w: string)
    requires StartsWith(s, w) && w != []
    ensures s[0] == w[0]
  {
    assert s[0..|w|][0] == s[0];
  }

  /** A string starting with a digit starts with none of the relative words. */
  lemma DigitStartsNoWord(s: string, words: seq<string>)
    requires s != [] && IsDigit(s[0])
    requires forall w :: w in words ==> w != [] && !IsDigit(w[0])
    ensures !StartsWithAny(s, words)
  {
    forall w | w in words ensures !StartsWith(s, w) {
      if StartsWith(s, w) {
        FirstChar(s, w);
      }
    }
  }

  /** A stamp is already stripped and lowered, and is no relative form. */
  lemma StampNormal(t: DateTime)
    requires Valid(t) && 1000 <= t.year
    ensures Lower(Strip(Stamp(t))) == Stamp(t)
    ensures !StartsWithAny(Stamp(t), TodayWords) && !StartsWithAny(Stamp(t), YesterdayWords)
  {
    var s := Stamp(t);
    StampShape(t);
    StripKeeps(s);
    assert forall k :: 0 <= k < |s| ==> IsDigit(s[k]) || s[k] in ".:, ";
    LowerKeeps(s);
    DigitStartsNoWord(s, TodayWords);
    DigitStartsNoWord(s, YesterdayWords);
  }

  /** The leftmost match in a stamp is the whole stamp, cut as `StampCut`. */
  lemma StampSearch(t: DateTime)
    requires Valid(t) && 1000 <= t.year
    ensures SearchDate(Stamp(t), 0) == Some(StampCut)
  {
    StampShape(t);
  }

  lemma StampGroups(t: DateTime)
    requires Valid(t) && 1000 <= t.year
    ensures DateShape(Stamp(t), StampCut)
    ensures GroupsOf(Stamp(t), StampCut) == Groups(t.day, t.month, Some(t.year), t.hour, t.minute)
  {
    StampShape(t);
    FixedValue(t.day, 2);
    FixedValue(t.month, 2);
    FixedValue(t.year, 4);
    FixedValue(t.hour, 2);
    FixedValue(t.minute, 2);
  }

  /** A rendered stamp parses back to the very instant rendered, whatever
      the current time: the explicit year stops any inference. */
  lemma StampRoundTrip(t: DateTime, now: DateTime)
    requires Valid(t) && 1000 <= t.year && t.second == 0 && t.microsecond == 0
    requires Valid(now)
    ensures ParseBergfexDateTime(Stamp(t), now) == Parsed(t)
  {
    var s := Stamp(t);
    StampNormal(t);
    StampSearch(t);
    StampGroups(t);
    assert ParseBergfexDateTime(s, now) == Absolute(s, now);
  }

  /** The stamp of the resort page used as an example of the site's output. */
  lemma StampExample(now: DateTime)
    requires Valid(now)
    ensures ParseBergfexDateTime("05.11.2025, 14:40", now) == Parsed(DateTime(2025, 11, 5, 14, 40, 0, 0))
  {
    var t := DateTime(2025, 11, 5, 14, 40, 0, 0);
    ExampleStampText();
    StampRoundTrip(t, now);
  }

  /** The example stamp is how that datetime is rendered. */
  lemma ExampleStampText()
    ensures Stamp(DateTime(2025, 11, 5, 14, 40, 0, 0)) == "05.11.2025, 14:40"
  {
    var t := DateTime(2025, 11, 5, 14, 40, 0, 0);
    assert Stamp(t) == "05" + "." + "11" + "." + ("20" + "25") + ", " + "14" + ":" + "40" by {
      FixedTwo(5, '0', '5');
      FixedTwo(11, '1', '1');
      FixedTwo(14, '1', '4');
      FixedTwo(40, '4', '0');
      FixedTwo(2025, '2', '5');
      FixedTwo(20, '2', '0');
      assert Fixed(2025, 4) == Fixed(20, 2) + Fixed(2025, 2);
    }
  }

  /** The last two digits of `n`, given as characters. */
  lemma FixedTwo(n: nat, hi: char, lo: char)
    requires hi == DigitChar(n / 10 % 10) && lo == DigitChar(n % 10)
    ensures Fixed(n, 2) == [hi, lo]
  {
    assert Fixed(n / 10, 1) == [] + [DigitChar(n / 10 % 10)];
  }

  // ---------------------------------------------------------------------
  // The relative forms
  // ---------------------------------------------------------------------

  /** A prefix fixes the first characters of the string. */
  lemma PrefixChars(s: string, w: string)
    requires StartsWith(s, w) && |w| >= 2
    ensures s[0] == w[0] && s[1] == w[1]
  {
    assert s[0..|w|][0] == s[0] && s[0..|w|][1] == s[1];
  }

  /** No string starts both with a word for today and a word for yesterday. */
  lemma TodayIsNotYesterday(s: string)
    ensures StartsWithAny(s, YesterdayWords) ==> !StartsWithAny(s, TodayWords)
  {
    if StartsWithAny(s, TodayWords) {
      var w :| w in TodayWords && StartsWith(s, w);
      PrefixChars(s, w);
      forall y | y in YesterdayWords ensures !StartsWith(s, y) {
        if StartsWith(s, y) {
          PrefixChars(s, y);
        }
      }
    }
  }

  /** "Today ... H:MM": today's date at the clock found in the string, with
      seconds cleared; ValueError, which escapes, when the clock is no time of day. */
  lemma TodayForm(raw: string, now: DateTime, m: TimeMatch)
    requires Valid(now) && raw != []
    requires StartsWithAny(Lower(Strip(raw)), TodayWords) && SearchTime(Lower(Strip(raw)), 0) == Some(m)
    ensures var s := Lower(Strip(raw)); var h, mi := HourOf(s, m), MinuteOf(s, m);
            var r := ParseBergfexDateTime(raw, now);
            && (r.Raised? <==> h > 23 || mi > 59)
            && (r.Raised? ==> r.error == ValueError)
            && (r.Parsed? ==> r.value == DateTime(now.year, now.month, now.day, h, mi, 0, 0))
            && !r.Unparsed?
  {
    var s := Lower(Strip(raw));
    assert ParseBergfexDateTime(raw, now) == AtClock(now, HourOf(s, m), MinuteOf(s, m));
  }

  /** "Yesterday ... H:MM": the day before today at the clock found in the
      string. OverflowError escapes on 1 January of year 1, ValueError when
      the clock is no time of day. */
  lemma YesterdayForm(raw: string, now: DateTime, m: TimeMatch)
    requires Valid(now) && raw != []
    requires StartsWithAny(Lower(Strip(raw)), YesterdayWords) && SearchTime(Lower(Strip(raw)), 0) == Some(m)
    ensures var s := Lower(Strip(raw)); var h, mi := HourOf(s, m), MinuteOf(s, m);
            var r := ParseBergfexDateTime(raw, now);
            && (r == Raised(OverflowError) <==> Ordinal(now) == 1)
            && (r == Raised(ValueError) <==> Ordinal(now) > 1 && (h > 23 || mi > 59))
            && (r.Parsed? ==> Valid(r.value) && Ordinal(r.value) == Ordinal(now) - 1
                              && r.value.hour == h && r.value.minute == mi
                              && r.value.second == 0 && r.value.microsecond == 0)
            && !r.Unparsed?
  {
    var s := Lower(Strip(raw));
    TodayIsNotYesterday(s);
    OrdinalRange(now);
    match PrevDay(now)
    case None =>
      assert ParseBergfexDateTime(raw, now) == Raised(OverflowError);
    case Some(yesterday) =>
      var r := AtClock(yesterday, HourOf(s, m), MinuteOf(s, m));
      assert ParseBergfexDateTime(raw, now) == r;
      assert r.Parsed? ==> Ordinal(r.value) == Ordinal(yesterday);
  }

  // ---------------------------------------------------------------------
  // The absolute form
  // ---------------------------------------------------------------------

  /** Every match of the absolute pattern holds a match of the clock pattern,
      so a string without a clock never yields a date. */
  lemma NoClockUnparsed(raw: string, now: DateTime)
    requires Valid(now)
    requires raw == [] || SearchTime(Lower(Strip(raw)), 0).None?
    ensures ParseBergfexDateTime(raw, now) == Unparsed
  {
    if raw != [] {
      var s := Lower(Strip(raw));
      match SearchDate(s, 0)
      case None =>
      case Some(c) =>
        DateHasClock(s, c);
    }
  }

  /** With an explicit year the groups are taken as they are: the date is
      returned exactly when it exists, and nothing is raised. */
  lemma ExplicitYear(g: Groups, now: DateTime)
    requires Valid(now) && g.year.Some?
    ensures var r := FromGroups(g, now);
            && !r.Raised?
            && (r.Parsed? <==> ValidDate(g.year.value, g.month, g.day) && g.hour <= 23 && g.minute <= 59)
            && (r.Parsed? ==> r.value == DateTime(g.year.value, g.month, g.day, g.hour, g.minute, 0, 0))
  {
  }

  /** A date later than 180 days from now is in the second half of its year:
      past February, so its anniversary a year earlier exists. */
  lemma PastFebruary(now: DateTime, limit: DateTime, result: DateTime)
    requires Valid(now) && Valid(limit) && Valid(result)
    requires result.year == now.year && Ordinal(limit) == Ordinal(now) + 180
    requires Before(limit, result)
    ensures result.month >= 3
  {
    if DateBefore(limit, result) {
      OrdinalMonotone(limit, result);
    }
    MonthBounds(now.year, now.month);
    MonthBounds(result.year, 3);
    if result.month < 3 {
      MonthsIncrease(result.year, result.month, 3);
    }
  }

  /** The 180-day horizon is never before today's date. */
  lemma LimitNotEarlier(now: DateTime, limit: DateTime)
    requires Valid(now) && Valid(limit) && Ordinal(limit) == Ordinal(now) + 180
    ensures limit.year >= now.year
  {
    if limit.year < now.year {
      OrdinalMonotone(limit, now);
    }
  }

  /** Without a year the current year is assumed, and the year before when
      that would put the stamp more than 180 days ahead; the other groups are
      kept. Only the 180-day horizon can raise, past 31 December 9999. */
  lemma InferredYear(g: Groups, now: DateTime)
    requires Valid(now) && g.year.None?
    ensures var r := FromGroups(g, now);
            && (r.Parsed? ==> r.value.month == g.month && r.value.day == g.day
                              && r.value.hour == g.hour && r.value.minute == g.minute
                              && (r.value.year == now.year || r.value.year == now.year - 1))
            && (r.Raised? <==> ValidDate(now.year, g.month, g.day) && g.hour <= 23 && g.minute <= 59
                               && Ordinal(now) + 180 > MaxOrdinal)
            && (r.Raised? ==> r.error == OverflowError)
  {
    InferredKeeps(g, now);
    InferredRaises(g, now);
  }

  /** The groups kept by an inferred year. */
  lemma InferredKeeps(g: Groups, now: DateTime)
    requires Valid(now) && g.year.None?
    ensures var r := FromGroups(g, now);
            r.Parsed? ==> r.value == DateTime(now.year, g.month, g.day, g.hour, g.minute, 0, 0)
                          || r.value == DateTime(now.year - 1, g.month, g.day, g.hour, g.minute, 0, 0)
  {
    var made := Make(now.year, g.month, g.day, g.hour, g.minute, 0, 0);
    var earlier := Make(now.year - 1, g.month, g.day, g.hour, g.minute, 0, 0);
    if made.Some? {
      RollBackKeeps(made.value, PlusDays(now, 180), earlier);
    }
  }

  /** The year inference returns the stamp or its year-earlier twin. */
  lemma RollBackKeeps(result: DateTime, limit: Option<DateTime>, earlier: Option<DateTime>)
    ensures var r := RollBack(result, limit, earlier);
            r.Parsed? ==> r.value == result || (earlier.Some? && r.value == earlier.value)
  {
  }

  /** When an inferred year raises. */
  lemma InferredRaises(g: Groups, now: DateTime)
    requires Valid(now) && g.year.None?
    ensures var r := FromGroups(g, now);
            && (r.Raised? <==> ValidDate(now.year, g.month, g.day) && g.hour <= 23 && g.minute <= 59
                               && Ordinal(now) + 180 > MaxOrdinal)
            && (r.Raised? ==> r.error == OverflowError)
  {
    match Make(now.year, g.month, g.day, g.hour, g.minute, 0, 0)
    case None =>
    case Some(result) =>
      assert ValidDate(now.year, g.month, g.day) && g.hour <= 23 && g.minute <= 59;
      match PlusDays(now, 180)
      case None =>
      case Some(limit) =>
        assert Ordinal(now) + 180 <= MaxOrdinal;
  }

  /** An inferred year never puts the stamp more than 180 days after now. */
  lemma InferredWithinHorizon(g: Groups, now: DateTime)
    requires Valid(now) && g.year.None?
    ensures var r := FromGroups(g, now);
            r.Parsed? ==> PlusDays(now, 180).Some? && !Before(PlusDays(now, 180).value, r.value)
  {
    match Make(now.year, g.month, g.day, g.hour, g.minute, 0, 0)
    case None =>
    case Some(result) =>
      match PlusDays(now, 180)
      case None =>
      case Some(limit) =>
        if Before(limit, result) {
          LimitNotEarlier(now, limit);
        }
  }

  /** The year before is taken exactly when this year's date lies beyond the
      horizon; within it, the date of this year is returned as built. */
  lemma InferredRollsBackIff(g: Groups, now: DateTime)
    requires Valid(now) && g.year.None?
    ensures var r, made, horizon := FromGroups(g, now), Make(now.year, g.month, g.day, g.hour, g.minute, 0, 0), PlusDays(now, 180);
            && (r.Parsed? ==> made.Some? && horizon.Some?
                              && (r.value.year == now.year - 1 <==> Before(horizon.value, made.value))
                              && (r.value == made.value <==> !Before(horizon.value, made.value)))
            && (made.Some? && horizon.Some? && !Before(horizon.value, made.value) ==> r == Parsed(made.value))
  {
    match Make(now.year, g.month, g.day, g.hour, g.minute, 0, 0)
    case None =>
    case Some(result) =>
      var earlier := Make(now.year - 1, g.month, g.day, g.hour, g.minute, 0, 0);
      RollBackWhen(result, PlusDays(now, 180), earlier);
  }

  /** The roll-back returns the year-earlier twin exactly when the stamp lies past the limit. */
  lemma RollBackWhen(result: DateTime, limit: Option<DateTime>, earlier: Option<DateTime>)
    requires earlier.Some? ==> earlier.value.year == result.year - 1
    ensures var r := RollBack(result, limit, earlier);
            r.Parsed? ==> limit.Some?
                          && (r.value.year == result.year - 1 <==> Before(limit.value, result))
                          && (r.value == result <==> !Before(limit.value, result))
    ensures limit.Some? && !Before(limit.value, result) ==> RollBack(result, limit, earlier) == Parsed(result)
  {
  }

  /** Once now is past year 1 and the horizon is representable, every real
      day and month without a year yields a date: the roll-back only happens
      after February, where the day exists in every year. */
  lemma InferredAlwaysParses(g: Groups, now: DateTime)
    requires Valid(now) && g.year.None? && now.year >= 2
    requires ValidDate(now.year, g.month, g.day) && g.hour <= 23 && g.minute <= 59
    requires Ordinal(now) + 180 <= MaxOrdinal
    ensures FromGroups(g, now).Parsed?
  {
    var result := Make(now.year, g.month, g.day, g.hour, g.minute, 0, 0).value;
    var limit := PlusDays(now, 180).value;
    if Before(limit, result) {
      PastFebruary(now, limit, result);
      assert ValidDate(now.year - 1, g.month, g.day);
    }
  }

  /** The only exceptions that leave the parser: ValueError from a relative
      form whose clock is no time of day, OverflowError from "yesterday" on
      the first representable day or from the 180-day horizon past the last
      one. A malformed absolute date is caught and yields None. */
  lemma RaisesOnlyWhen(raw: string, now: DateTime)
    requires Valid(now)
    ensures var r := ParseBergfexDateTime(raw, now);
            r.Raised? ==>
              var s := Lower(Strip(raw));
              SearchTime(s, 0).Some?
              && if StartsWithAny(s, TodayWords) || StartsWithAny(s, YesterdayWords) then
                   var m := SearchTime(s, 0).value;
                   (r.error == ValueError && (HourOf(s, m) > 23 || MinuteOf(s, m) > 59))
                   || (r.error == OverflowError && StartsWithAny(s, YesterdayWords) && Ordinal(now) == 1)
                 else
                   r.error == OverflowError && Ordinal(now) + 180 > MaxOrdinal
  {
    var r := ParseBergfexDateTime(raw, now);
    if r.Raised? {
      var s := Lower(Strip(raw));
      if SearchTime(s, 0).None? {
        NoClockUnparsed(raw, now);
      } else if !StartsWithAny(s, TodayWords) && !StartsWithAny(s, YesterdayWords) {
        var c := SearchDate(s, 0).value;
        var g := GroupsOf(s, c);
        if g.year.Some? {
          ExplicitYear(g, now);
        } else {
          InferredYear(g, now);
        }
      } else if StartsWithAny(s, YesterdayWords) {
        TodayIsNotYesterday(s);
      }
    }
  }
}
