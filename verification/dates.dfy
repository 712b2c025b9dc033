/** Calendar dates as Python's `datetime.date` and `calendar` modules treat
    them: the proleptic Gregorian calendar over years 1..9999, ordinal day
    numbers starting at 0001-01-01 (a Monday), and weekdays Monday = 0. */
module Dates {
  import opened Optional

  /** `datetime.MINYEAR` and `datetime.MAXYEAR`. */
  const MinYear := 1
  const MaxYear := 9999

  datatype Date = Date(year: int, month: int, day: int)

  /** `calendar.isleap`. */
  predicate IsLeapYear(y: int)
  {
    y % 4 == 0 && (y % 100 != 0 || y % 400 == 0)
  }

  /** `calendar.monthrange(y, m)[1]`: the number of days in month `m` of year `y`. */
  function DaysInMonth(y: int, m: int): (n: int)
    requires 1 <= m <= 12
    ensures 28 <= n <= 31
  {
    if m == 2 then (if IsLeapYear(y) then 29 else 28)
    else if m == 4 || m == 6 || m == 9 || m == 11 then 30
    else 31
  }

  /** A date the `datetime.date` constructor accepts. */
  predicate ValidDate(d: Date)
  {
    && MinYear <= d.year <= MaxYear
    && 1 <= d.month <= 12
    && 1 <= d.day <= DaysInMonth(d.year, d.month)
  }

  /** `datetime(y, m, d).date()`: the date, or None where Python raises `ValueError`. */
  function MakeDate(y: int, m: int, d: int): (r: Option<Date>)
    ensures r.Some? <==> ValidDate(Date(y, m, d))
    ensures r.Some? ==> r.value.year == y && r.value.month == m && r.value.day == d
  {
    if ValidDate(Date(y, m, d)) then Some(Date(y, m, d)) else None
  }

  /** Python's `a < b` on dates: year, then month, then day. */
  predicate Before(a: Date, b: Date)
  {
    || a.year < b.year
    || (a.year == b.year && a.month < b.month)
    || (a.year == b.year && a.month == b.month && a.day < b.day)
  }

  /** Days in the years before year `y`. */
  function DaysBeforeYear(y: int): (n: int)
    requires y >= 1
    ensures n >= 0
  {
    var p := y - 1;
    p * 365 + p / 4 - p / 100 + p / 400
  }

  /** Days in the months of year `y` before month `m`: a cumulative table
      for a common year, plus the leap day once February is past. */
  function DaysBeforeMonth(y: int, m: int): (n: int)
    requires 1 <= m <= 12
    ensures 0 <= n <= 335
  {
    var common := [0, 31, 59, 90, 120, 151, 181, 212, 243, 273, 304, 334][m - 1];
    common + (if m > 2 && IsLeapYear(y) then 1 else 0)
  }

  /** The number of days in year `y`. */
  function DaysInYear(y: int): int
  {
    if IsLeapYear(y) then 366 else 365
  }

  /** `date.toordinal()`: 0001-01-01 is day 1. */
  function Ordinal(d: Date): (n: int)
    requires ValidDate(d)
    ensures n >= 1
  {
    DaysBeforeYear(d.year) + DaysBeforeMonth(d.year, d.month) + d.day
  }

  /** `date.weekday()`: Monday is 0 and Sunday is 6. */
  function Weekday(d: Date): (w: int)
    requires ValidDate(d)
    ensures 0 <= w <= 6
  {
    (Ordinal(d) + 6) % 7
  }

  /** The cumulative table agrees with the month lengths: month `m + 1`
      starts `DaysInMonth(y, m)` days after month `m`, and December ends
      the year. */
  lemma MonthsTile(y: int, m: int)
    requires 1 <= m <= 12
    ensures m < 12 ==> DaysBeforeMonth(y, m + 1) == DaysBeforeMonth(y, m) + DaysInMonth(y, m)
    ensures m == 12 ==> DaysBeforeMonth(y, m) + DaysInMonth(y, m) == DaysInYear(y)
  {
  }

  /** Consecutive years: year `y + 1` starts right after the last day of year `y`. */
  lemma NextYearStart(y: int)
    requires y >= 1
    ensures DaysBeforeYear(y + 1) == DaysBeforeYear(y) + DaysInYear(y)
  {
    var p := y - 1;
    var d4, d100, d400 := y / 4 - p / 4, y / 100 - p / 100, y / 400 - p / 400;
    DivStep(y, 4);
    DivStep(y, 100);
    DivStep(y, 400);
    DivisibilityChain(y);
    assert DaysBeforeYear(y + 1) - DaysBeforeYear(y) == 365 + d4 - d100 + d400;
    assert d4 - d100 + d400 == (if IsLeapYear(y) then 1 else 0);
  }

  /** Divisible by 400 implies by 100, which implies by 4. */
  lemma DivisibilityChain(y: int)
    ensures y % 400 == 0 ==> y % 100 == 0
    ensures y % 100 == 0 ==> y % 4 == 0
  {
    if y % 400 == 0 {
      var q := y / 400;
      assert y == 100 * (4 * q);
      assert y / 100 == 4 * q;
    }
    if y % 100 == 0 {
      var q := y / 100;
      assert y == 4 * (25 * q);
      assert y / 4 == 25 * q;
    }
  }

  /** Stepping from `y - 1` to `y` raises `y / k` exactly when `k` divides `y`. */
  lemma DivStep(y: int, k: int)
    requires k == 4 || k == 100 || k == 400
    ensures y / k == (y - 1) / k + (if y % k == 0 then 1 else 0)
  {
    var q := (y - 1) / k;
    var r := (y - 1) % k;
    assert 0 <= r < k;
    if k == 4 {
      assert y - 1 == 4 * q + r;
      if r == 3 {
        assert y == 4 * (q + 1);
      } else {
        assert y == 4 * q + (r + 1);
      }
    } else if k == 100 {
      assert y - 1 == 100 * q + r;
      if r == 99 {
        assert y == 100 * (q + 1);
      } else {
        assert y == 100 * q + (r + 1);
      }
    } else {
      assert y - 1 == 400 * q + r;
      if r == 399 {
        assert y == 400 * (q + 1);
      } else {
        assert y == 400 * q + (r + 1);
      }
    }
  }

  /** A later year starts after every day of an earlier one. */
  lemma {:induction false} DaysBeforeYearMonotone(a: int, b: int)
    requires 1 <= a < b
    ensures DaysBeforeYear(a) + DaysInYear(a) <= DaysBeforeYear(b)
    decreases b - a
  {
    NextYearStart(a);
    if a + 1 < b {
      DaysBeforeYearMonotone(a + 1, b);
    }
  }

  /** A valid date's day falls inside its year: at most `DaysInYear` days
      after the year's start. */
  lemma DayOfYearBound(d: Date)
    requires ValidDate(d)
    ensures 1 <= DaysBeforeMonth(d.year, d.month) + d.day <= DaysInYear(d.year)
  {
  }

  /** Within one year, a later month starts after every day of an earlier one. */
  lemma LaterMonthLaterDays(y: int, a: int, da: int, b: int, db: int)
    requires 1 <= a < b <= 12
    requires 1 <= da <= DaysInMonth(y, a) && 1 <= db
    ensures DaysBeforeMonth(y, a) + da < DaysBeforeMonth(y, b) + db
  {
  }

  /** An earlier date has a smaller ordinal. */
  lemma OrdinalIncreasing(x: Date, z: Date)
    requires ValidDate(x) && ValidDate(z) && Before(x, z)
    ensures Ordinal(x) < Ordinal(z)
  {
    if x.year < z.year {
      DayOfYearBound(x);
      DaysBeforeYearMonotone(x.year, z.year);
    } else if x.month < z.month {
      LaterMonthLaterDays(x.year, x.month, x.day, z.month, z.day);
    }
  }

  /** Python's date comparison agrees with the ordinal day numbers. */
  lemma BeforeIffOrdinalLess(a: Date, b: Date)
    requires ValidDate(a) && ValidDate(b)
    ensures Before(a, b) <==> Ordinal(a) < Ordinal(b)
  {
    if Before(a, b) {
      OrdinalIncreasing(a, b);
    } else if Before(b, a) {
      OrdinalIncreasing(b, a);
    }
  }

  /** The first day of the month after (y, m) comes `DaysInMonth(y, m)` days
      after the first day of (y, m), across a year boundary too. */
  lemma NextMonthFirstOrdinal(y: int, m: int)
    requires MinYear <= y <= MaxYear && 1 <= m <= 12
    requires y < MaxYear || m < 12
    ensures var (ny, nm) := if m == 12 then (y + 1, 1) else (y, m + 1);
      Ordinal(Date(ny, nm, 1)) == Ordinal(Date(y, m, 1)) + DaysInMonth(y, m)
  {
    MonthsTile(y, m);
    if m == 12 {
      NextYearStart(y);
    }
  }

  /** Weekdays advance with the day count: a date `n` days after another
      falls `n` weekdays later, modulo a week. */
  lemma WeekdayAdvance(a: Date, b: Date, n: int)
    requires ValidDate(a) && ValidDate(b)
    requires Ordinal(b) == Ordinal(a) + n
    ensures Weekday(b) == (Weekday(a) + n) % 7
  {
    ModSevenShift(Ordinal(a) + 6, n);
  }

  /** Adding `n` commutes with reducing modulo 7. */
  lemma ModSevenShift(x: int, n: int)
    ensures (x + n) % 7 == (x % 7 + n) % 7
  {
    assert x + n == 7 * (x / 7) + (x % 7 + n);
  }

  /** Fixed points of the calendar: 2000-01-01 was a Saturday, 2026-10-01
      a Thursday, and February 2024 had 29 days. */
  lemma CalendarExamples()
    ensures Ordinal(Date(2000, 1, 1)) == 730120 && Weekday(Date(2000, 1, 1)) == 5
    ensures Ordinal(Date(2026, 10, 1)) == 739890 && Weekday(Date(2026, 10, 1)) == 3
    ensures DaysInMonth(2024, 2) == 29 && DaysInMonth(2100, 2) == 28 && DaysInMonth(2000, 2) == 29
  {
  }

  /** The month after (y, m) starts on the weekday following (y, m)'s last day. */
  lemma NextMonthWeekday(y: int, m: int)
    requires MinYear <= y <= MaxYear && 1 <= m <= 12
    requires y < MaxYear || m < 12
    ensures var (ny, nm) := if m == 12 then (y + 1, 1) else (y, m + 1);
      Weekday(Date(ny, nm, 1)) == (Weekday(Date(y, m, 1)) + DaysInMonth(y, m)) % 7
  {
    var (ny, nm) := if m == 12 then (y + 1, 1) else (y, m + 1);
    NextMonthFirstOrdinal(y, m);
    WeekdayAdvance(Date(y, m, 1), Date(ny, nm, 1), DaysInMonth(y, m));
  }
}
