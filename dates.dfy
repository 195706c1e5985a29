/**
 * Proleptic Gregorian calendar dates with the range and arithmetic of
 * Python's `datetime.date`: years 1..9999, day ordinals as `toordinal()`
 * (0001-01-01 is day 1), weekdays as `weekday()` (Monday is 0), and
 * `timedelta.days` (a floored day count) for differences of instants.
 */
module Dates {

  datatype Option<+T> = None | Some(value: T)

  const MinYear: int := 1
  const MaxYear: int := 9999
  const MicrosPerDay: int := 86_400_000_000

  /** A year, month and day, not necessarily a real date. */
  datatype Ymd = Ymd(year: int, month: int, day: int)

  predicate IsLeapYear(y: int) {
    y % 4 == 0 && (y % 100 != 0 || y % 400 == 0)
  }

  function DaysInYear(y: int): int {
    if IsLeapYear(y) then 366 else 365
  }

  function DaysInMonth(y: int, m: int): int {
    if m == 2 then (if IsLeapYear(y) then 29 else 28)
    else if m == 4 || m == 6 || m == 9 || m == 11 then 30
    else 31
  }

  predicate IsValid(d: Ymd) {
    && MinYear <= d.year <= MaxYear
    && 1 <= d.month <= 12
    && 1 <= d.day <= DaysInMonth(d.year, d.month)
  }

  /** A calendar date that Python's `date` can represent. */
  type Date = d: Ymd | IsValid(d) witness Ymd(1, 1, 1)

  const FirstDate: Date := Ymd(1, 1, 1)
  const LastDate: Date := Ymd(9999, 12, 31)
  const LastOrdinal: int := 3652059

  /** Days in the years 1 .. y - 1. */
  function DaysBeforeYear(y: int): int
    requires y >= 1
  {
    var a := y - 1;
    365 * a + a / 4 - a / 100 + a / 400
  }

  /** Days in the months 1 .. m - 1 of year y. */
  function DaysBeforeMonth(y: int, m: int): int
    requires 1 <= m <= 12
  {
    [0, 31, 59, 90, 120, 151, 181, 212, 243, 273, 304, 334][m - 1]
      + (if m > 2 && IsLeapYear(y) then 1 else 0)
  }

  /** Python's `date.toordinal()`. */
  function Ordinal(d: Date): int {
    DaysBeforeYear(d.year) + DaysBeforeMonth(d.year, d.month) + d.day
  }

  /** Python's `date.weekday()`: Monday is 0, Saturday 5, Sunday 6. */
  function Weekday(d: Date): (w: int)
    ensures 0 <= w < 7
  {
    (Ordinal(d) + 6) % 7
  }

  predicate IsWeekend(d: Date) {
    Weekday(d) == 5 || Weekday(d) == 6
  }

  /** `d + timedelta(days=1)`, or None where Python raises OverflowError. */
  function Next(d: Date): Option<Date> {
    if d.day < DaysInMonth(d.year, d.month) then Some(Ymd(d.year, d.month, d.day + 1))
    else if d.month < 12 then Some(Ymd(d.year, d.month + 1, 1))
    else if d.year < MaxYear then Some(Ymd(d.year + 1, 1, 1))
    else None
  }

  /** `d - timedelta(days=1)`, or None where Python raises OverflowError. */
  function Prev(d: Date): Option<Date> {
    if d.day > 1 then Some(Ymd(d.year, d.month, d.day - 1))
    else if d.month > 1 then Some(Ymd(d.year, d.month - 1, DaysInMonth(d.year, d.month - 1)))
    else if d.year > MinYear then Some(Ymd(d.year - 1, 12, 31))
    else None
  }

  // ---------------------------------------------------------------------
  // Ordinal arithmetic

  lemma DivStep(a: int)
    requires a >= 0
    ensures (a + 1) / 4 - a / 4 == (if (a + 1) % 4 == 0 then 1 else 0)
    ensures (a + 1) / 100 - a / 100 == (if (a + 1) % 100 == 0 then 1 else 0)
    ensures (a + 1) / 400 - a / 400 == (if (a + 1) % 400 == 0 then 1 else 0)
  {
  }

  lemma {:induction false} DaysBeforeNextYear(y: int)
    requires y >= 1
    ensures DaysBeforeYear(y + 1) == DaysBeforeYear(y) + DaysInYear(y)
  {
    YearStep(y);
    LeapDivisors(y);
  }

  /** The days before the next year: 365 plus the leap corrections the year's divisibility brings. */
  lemma YearStep(y: int)
    requires y >= 1
    ensures DaysBeforeYear(y + 1) - DaysBeforeYear(y)
         == 365 + (if y % 4 == 0 then 1 else 0) - (if y % 100 == 0 then 1 else 0) + (if y % 400 == 0 then 1 else 0)
  {
    DivStep(y - 1);
  }

  /** A multiple of 400 is one of 100, and a multiple of 100 is one of 4. */
  lemma LeapDivisors(y: int)
    ensures y % 400 == 0 ==> y % 100 == 0
    ensures y % 100 == 0 ==> y % 4 == 0
  {
    if y % 400 == 0 {
      var k := 4 * (y / 400);
      HundredsMod(k);
      assert y == 100 * k;
    }
    if y % 100 == 0 {
      var k := 25 * (y / 100);
      FoursMod(k);
      assert y == 4 * k;
    }
  }

  lemma HundredsMod(k: int)
    ensures (100 * k) % 100 == 0
  {
  }

  lemma FoursMod(k: int)
    ensures (4 * k) % 4 == 0
  {
  }

  lemma {:induction false} DaysBeforeYearGrows(y1: int, y2: int)
    requires 1 <= y1 < y2
    ensures DaysBeforeYear(y1) + DaysInYear(y1) <= DaysBeforeYear(y2)
    decreases y2 - y1
  {
    DaysBeforeNextYear(y1);
    if y1 + 1 < y2 {
      DaysBeforeYearGrows(y1 + 1, y2);
    }
  }

  lemma DaysBeforeNextMonth(y: int, m: int)
    requires 1 <= m < 12
    ensures DaysBeforeMonth(y, m + 1) == DaysBeforeMonth(y, m) + DaysInMonth(y, m)
  {
  }

  lemma DaysBeforeMonthGrows(y: int, m1: int, m2: int)
    requires 1 <= m1 < m2 <= 12
    ensures DaysBeforeMonth(y, m1) + DaysInMonth(y, m1) <= DaysBeforeMonth(y, m2)
  {
  }

  lemma OrdinalWithinYear(d: Date)
    ensures DaysBeforeYear(d.year) < Ordinal(d) <= DaysBeforeYear(d.year) + DaysInYear(d.year)
  {
  }

  /** Every date has an ordinal in 1 .. LastOrdinal. */
  lemma OrdinalBounds(d: Date)
    ensures 1 <= Ordinal(d) <= LastOrdinal
  {
    OrdinalWithinYear(d);
    if d.year < MaxYear {
      DaysBeforeYearGrows(d.year, MaxYear);
    }
  }

  /** Distinct dates have distinct ordinals. */
  lemma OrdinalInjective(a: Date, b: Date)
    requires Ordinal(a) == Ordinal(b)
    ensures a == b
  {
    OrdinalWithinYear(a);
    OrdinalWithinYear(b);
    if a.year < b.year {
      DaysBeforeYearGrows(a.year, b.year);
    } else if b.year < a.year {
      DaysBeforeYearGrows(b.year, a.year);
    } else if a.month < b.month {
      DaysBeforeMonthGrows(a.year, a.month, b.month);
    } else if b.month < a.month {
      DaysBeforeMonthGrows(a.year, b.month, a.month);
    }
  }

  /** Next is the day whose ordinal is one more; it fails only on the last date. */
  lemma NextIsFollowingDay(d: Date)
    ensures Next(d).Some? ==> Ordinal(Next(d).value) == Ordinal(d) + 1
    ensures Next(d).None? <==> Ordinal(d) == LastOrdinal
  {
    if d.day < DaysInMonth(d.year, d.month) {
    } else if d.month < 12 {
      DaysBeforeNextMonth(d.year, d.month);
    } else if d.year < MaxYear {
      DaysBeforeNextYear(d.year);
    }
    OrdinalBounds(d);
    if Ordinal(d) == LastOrdinal {
      OrdinalInjective(d, LastDate);
    }
  }

  /** Prev is the day whose ordinal is one less; it fails only on the first date. */
  lemma PrevIsPrecedingDay(d: Date)
    ensures Prev(d).Some? ==> Ordinal(Prev(d).value) == Ordinal(d) - 1
    ensures Prev(d).None? <==> Ordinal(d) == 1
  {
    if d.day > 1 {
    } else if d.month > 1 {
      DaysBeforeNextMonth(d.year, d.month - 1);
    } else if d.year > MinYear {
      DaysBeforeNextYear(d.year - 1);
    } else {
      assert d == FirstDate;
    }
    PrevFailsOnlyFirst(d);
  }

  lemma PrevFailsOnlyFirst(d: Date)
    ensures Ordinal(d) == 1 ==> Prev(d).None?
  {
    if Ordinal(d) == 1 {
      OrdinalInjective(d, FirstDate);
    }
  }

  // ---------------------------------------------------------------------
  // Instants and elapsed days

  /** A naive `datetime`: a date and the microseconds elapsed since its midnight. */
  datatype Moment = Moment(date: Date, micros: int)

  type Instant = t: Moment | 0 <= t.micros < MicrosPerDay witness Moment(FirstDate, 0)

  function Midnight(d: Date): Instant {
    Moment(d, 0)
  }

  function MicrosSinceEpoch(t: Instant): int {
    Ordinal(t.date) * MicrosPerDay + t.micros
  }

  /** `(later - earlier).days` of two naive datetimes: the floored number of days. */
  function ElapsedDays(later: Instant, earlier: Instant): int {
    (MicrosSinceEpoch(later) - MicrosSinceEpoch(earlier)) / MicrosPerDay
  }

  /**
   * The day offset of a date from an instant counts calendar days, less one
   * whenever the instant is past midnight: a date that is today is -1 days
   * away unless the clock reads exactly 00:00.
   */
  lemma ElapsedToDate(d: Date, now: Instant)
    ensures ElapsedDays(Midnight(d), now)
         == Ordinal(d) - Ordinal(now.date) - (if now.micros > 0 then 1 else 0)
  {
    var k := Ordinal(d) - Ordinal(now.date);
    var x := MicrosSinceEpoch(Midnight(d)) - MicrosSinceEpoch(now);
    assert x == k * MicrosPerDay - now.micros;
    if now.micros > 0 {
      assert (k - 1) * MicrosPerDay <= x < k * MicrosPerDay;
    } else {
      assert x == k * MicrosPerDay;
    }
  }

  /** The days elapsed from a date's midnight to an instant are whole calendar days. */
  lemma ElapsedSinceDate(now: Instant, d: Date)
    ensures ElapsedDays(now, Midnight(d)) == Ordinal(now.date) - Ordinal(d)
  {
    var k := Ordinal(now.date) - Ordinal(d);
    var x := MicrosSinceEpoch(now) - MicrosSinceEpoch(Midnight(d));
    assert x == k * MicrosPerDay + now.micros;
    assert k * MicrosPerDay <= x < (k + 1) * MicrosPerDay;
  }
}
