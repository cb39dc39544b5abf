/** Python `datetime` arithmetic as the date parser uses it. Both the parsed
    result and "now" carry the same time-zone object, so Python compares them
    and adds days to them on their wall-clock fields; no daylight-saving rule
    enters. Day arithmetic is that of `timedelta`: a shift of the proleptic
    Gregorian ordinal (`date.toordinal()`). */
module Calendar {
  import opened Builtins

  /** A wall-clock date and time in the site's reference zone. */
  datatype DateTime = DateTime(year: int, month: int, day: int,
                               hour: int, minute: int, second: int, microsecond: int)

  /** `datetime.MAXYEAR`; `datetime.MINYEAR` is 1. */
  const MaxYear: int := 9999

  /** The ordinal of 31 December 9999, the last day Python can represent. */
  const MaxOrdinal: int := 3652059

  predicate IsLeap(y: int) {
    y % 4 == 0 && (y % 100 != 0 || y % 400 == 0)
  }

  function DaysInMonth(y: int, m: int): int
    requires 1 <= m <= 12
  {
    if m == 2 then (if IsLeap(y) then 29 else 28)
    else if m == 4 || m == 6 || m == 9 || m == 11 then 30
    else 31
  }

  function DaysInYear(y: int): int {
    if IsLeap(y) then 366 else 365
  }

  predicate ValidDate(y: int, m: int, d: int) {
    1 <= y <= MaxYear && 1 <= m <= 12 && 1 <= d <= DaysInMonth(y, m)
  }

  predicate ValidTime(h: int, mi: int, s: int, us: int) {
    0 <= h <= 23 && 0 <= mi <= 59 && 0 <= s <= 59 && 0 <= us <= 999999
  }

  /** The values Python's `datetime` accepts. */
  predicate Valid(t: DateTime) {
    ValidDate(t.year, t.month, t.day) && ValidTime(t.hour, t.minute, t.second, t.microsecond)
  }

  /** `datetime(y, m, d, h, mi, s, us)`; None where Python raises ValueError. */
  function Make(y: int, m: int, d: int, h: int, mi: int, s: int, us: int): Option<DateTime> {
    if ValidDate(y, m, d) && ValidTime(h, mi, s, us) then Some(DateTime(y, m, d, h, mi, s, us)) else None
  }

  /** `a < b` for two datetimes in the same zone: field by field, most significant first. */
  predicate Before(a: DateTime, b: DateTime) {
    if a.year != b.year then a.year < b.year
    else if a.month != b.month then a.month < b.month
    else if a.day != b.day then a.day < b.day
    else if a.hour != b.hour then a.hour < b.hour
    else if a.minute != b.minute then a.minute < b.minute
    else if a.second != b.second then a.second < b.second
    else a.microsecond < b.microsecond
  }

  /** The calendar date of `a` comes strictly before that of `b`. */
  predicate DateBefore(a: DateTime, b: DateTime) {
    if a.year != b.year then a.year < b.year
    else if a.month != b.month then a.month < b.month
    else a.day < b.day
  }

  /** Same time of day. */
  predicate SameClock(a: DateTime, b: DateTime) {
    a.hour == b.hour && a.minute == b.minute && a.second == b.second && a.microsecond == b.microsecond
  }

  function DaysBeforeYear(y: int): int
    requires y >= 1
  {
    var p := y - 1;
    365 * p + p / 4 - p / 100 + p / 400
  }

  function DaysBeforeMonth(y: int, m: int): int
    requires 1 <= m <= 12
    decreases m
  {
    if m == 1 then 0 else DaysBeforeMonth(y, m - 1) + DaysInMonth(y, m - 1)
  }

  /** `date.toordinal()`: 1 January of year 1 is day 1. */
  function Ordinal(t: DateTime): int
    requires ValidDate(t.year, t.month, t.day)
  {
    DaysBeforeYear(t.year) + DaysBeforeMonth(t.year, t.month) + t.day
  }

  lemma YearLength(y: int)
    requires y >= 1
    ensures DaysBeforeYear(y + 1) == DaysBeforeYear(y) + DaysInYear(y)
  {
    var p := y - 1;
    assert (p + 1) / 4 == p / 4 + (if y % 4 == 0 then 1 else 0);
    assert (p + 1) / 100 == p / 100 + (if y % 100 == 0 then 1 else 0);
    assert (p + 1) / 400 == p / 400 + (if y % 400 == 0 then 1 else 0);
  }

  lemma {:induction false} MonthBounds(y: int, m: int)
    requires 1 <= m <= 12
    ensures 0 <= DaysBeforeMonth(y, m)
    ensures DaysBeforeMonth(y, m) + DaysInMonth(y, m) <= DaysInYear(y)
    ensures m == 12 ==> DaysBeforeMonth(y, m) + DaysInMonth(y, m) == DaysInYear(y)
    ensures m == 3 ==> DaysBeforeMonth(y, m) == 31 + DaysInMonth(y, 2)
  {
    assert DaysBeforeMonth(y, 2) == 31;
    assert DaysBeforeMonth(y, 3) == 31 + DaysInMonth(y, 2);
    assert DaysBeforeMonth(y, 4) == 62 + DaysInMonth(y, 2);
    assert DaysBeforeMonth(y, 5) == 92 + DaysInMonth(y, 2);
    assert DaysBeforeMonth(y, 6) == 123 + DaysInMonth(y, 2);
    assert DaysBeforeMonth(y, 7) == 153 + DaysInMonth(y, 2);
    assert DaysBeforeMonth(y, 8) == 184 + DaysInMonth(y, 2);
    assert DaysBeforeMonth(y, 9) == 215 + DaysInMonth(y, 2);
    assert DaysBeforeMonth(y, 10) == 245 + DaysInMonth(y, 2);
    assert DaysBeforeMonth(y, 11) == 276 + DaysInMonth(y, 2);
    assert DaysBeforeMonth(y, 12) == 306 + DaysInMonth(y, 2);
  }

  lemma {:induction false} MonthsIncrease(y: int, a: int, b: int)
    requires 1 <= a < b <= 12
    ensures DaysBeforeMonth(y, a) + DaysInMonth(y, a) <= DaysBeforeMonth(y, b)
    decreases b - a
  {
    if a + 1 < b {
      MonthsIncrease(y, a + 1, b);
    }
  }

  lemma {:induction false} YearsIncrease(a: int, b: int)
    requires 1 <= a < b
    ensures DaysBeforeYear(a) + DaysInYear(a) <= DaysBeforeYear(b)
    decreases b - a
  {
    YearLength(a);
    if a + 1 < b {
      YearsIncrease(a + 1, b);
    }
  }

  /** Ordinals follow the calendar order of dates. */
  lemma OrdinalMonotone(a: DateTime, b: DateTime)
    requires ValidDate(a.year, a.month, a.day) && ValidDate(b.year, b.month, b.day)
    requires DateBefore(a, b)
    ensures Ordinal(a) < Ordinal(b)
  {
    MonthBounds(a.year, a.month);
    MonthBounds(b.year, b.month);
    if a.year != b.year {
      YearsIncrease(a.year, b.year);
    } else if a.month != b.month {
      MonthsIncrease(a.year, a.month, b.month);
    }
  }

  /** Every representable date has an ordinal between 1 and MaxOrdinal. */
  lemma OrdinalRange(t: DateTime)
    requires ValidDate(t.year, t.month, t.day)
    ensures 1 <= Ordinal(t) <= MaxOrdinal
  {
    MonthBounds(t.year, t.month);
    assert DaysBeforeYear(10000) == MaxOrdinal;
    if t.year < 10000 {
      YearsIncrease(t.year, 10000);
    }
  }

  lemma LastDayOrdinal(t: DateTime)
    requires t.year == MaxYear && t.month == 12 && t.day == 31
    ensures ValidDate(t.year, t.month, t.day) && Ordinal(t) == MaxOrdinal
  {
    MonthBounds(t.year, 12);
  }

  /** The next calendar day at the same time; None where Python raises
      OverflowError past 31 December 9999. */
  function NextDay(t: DateTime): (r: Option<DateTime>)
    requires Valid(t)
    ensures r.Some? ==> Valid(r.value) && SameClock(r.value, t) && Ordinal(r.value) == Ordinal(t) + 1
    ensures r.None? <==> Ordinal(t) == MaxOrdinal
  {
    FinalOrdinal(t);
    if t.day < DaysInMonth(t.year, t.month) then
      Some(t.(day := t.day + 1))
    else if t.month < 12 then
      MonthAfter(t);
      Some(t.(month := t.month + 1, day := 1))
    else if t.year < MaxYear then
      YearAfter(t);
      Some(t.(year := t.year + 1, month := 1, day := 1))
    else
      None
  }

  /** MaxOrdinal is 31 December 9999 and no other date. */
  lemma FinalOrdinal(t: DateTime)
    requires ValidDate(t.year, t.month, t.day)
    ensures Ordinal(t) == MaxOrdinal <==> t.year == MaxYear && t.month == 12 && t.day == 31
  {
    var last := DateTime(MaxYear, 12, 31, 0, 0, 0, 0);
    LastDayOrdinal(last);
    if DateBefore(t, last) {
      OrdinalMonotone(t, last);
    }
  }

  /** The first of the next month is the day after the last of a month. */
  lemma MonthAfter(t: DateTime)
    requires Valid(t) && t.day == DaysInMonth(t.year, t.month) && t.month < 12
    ensures var n := t.(month := t.month + 1, day := 1);
            Valid(n) && Ordinal(n) == Ordinal(t) + 1
  {
    assert DaysBeforeMonth(t.year, t.month + 1) == DaysBeforeMonth(t.year, t.month) + DaysInMonth(t.year, t.month);
  }

  /** 1 January of the next year is the day after 31 December. */
  lemma YearAfter(t: DateTime)
    requires Valid(t) && t.day == 31 && t.month == 12 && t.year < MaxYear
    ensures var n := t.(year := t.year + 1, month := 1, day := 1);
            Valid(n) && Ordinal(n) == Ordinal(t) + 1
  {
    MonthBounds(t.year, 12);
    YearLength(t.year);
  }

  /** The previous calendar day at the same time; None where Python raises
      OverflowError before 1 January of year 1. */
  function PrevDay(t: DateTime): (r: Option<DateTime>)
    requires Valid(t)
    ensures r.Some? ==> Valid(r.value) && SameClock(r.value, t) && Ordinal(r.value) == Ordinal(t) - 1
    ensures r.None? <==> Ordinal(t) == 1
  {
    FirstOrdinal(t);
    if t.day > 1 then
      Some(t.(day := t.day - 1))
    else if t.month > 1 then
      MonthBefore(t);
      Some(t.(month := t.month - 1, day := DaysInMonth(t.year, t.month - 1)))
    else if t.year > 1 then
      YearBefore(t);
      Some(t.(year := t.year - 1, month := 12, day := 31))
    else
      None
  }

  /** The last day of the previous month is the day before the first of a month. */
  lemma MonthBefore(t: DateTime)
    requires Valid(t) && t.day == 1 && t.month > 1
    ensures var p := t.(month := t.month - 1, day := DaysInMonth(t.year, t.month - 1));
            Valid(p) && Ordinal(p) == Ordinal(t) - 1
  {
    assert DaysBeforeMonth(t.year, t.month) == DaysBeforeMonth(t.year, t.month - 1) + DaysInMonth(t.year, t.month - 1);
  }

  /** 31 December of the previous year is the day before 1 January. */
  lemma YearBefore(t: DateTime)
    requires Valid(t) && t.day == 1 && t.month == 1 && t.year > 1
    ensures var p := t.(year := t.year - 1, month := 12, day := 31);
            Valid(p) && Ordinal(p) == Ordinal(t) - 1
  {
    MonthBounds(t.year - 1, 12);
    YearLength(t.year - 1);
  }

  /** Day 1 is 1 January of year 1 and no other date. */
  lemma FirstOrdinal(t: DateTime)
    requires ValidDate(t.year, t.month, t.day)
    ensures Ordinal(t) == 1 <==> t.year == 1 && t.month == 1 && t.day == 1
  {
    var first := DateTime(1, 1, 1, 0, 0, 0, 0);
    if DateBefore(first, t) {
      OrdinalMonotone(first, t);
    }
  }

  /** `t + timedelta(days=n)`; None where Python raises OverflowError. */
  function PlusDays(t: DateTime, n: nat): (r: Option<DateTime>)
    requires Valid(t)
    ensures r.Some? ==> Valid(r.value) && SameClock(r.value, t) && Ordinal(r.value) == Ordinal(t) + n
    ensures r.Some? <==> Ordinal(t) + n <= MaxOrdinal
    decreases n
  {
    OrdinalRange(t);
    if n == 0 then Some(t)
    else
      match NextDay(t)
      case None => None
      case Some(u) => PlusDays(u, n - 1)
  }
}
