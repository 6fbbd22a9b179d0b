/**
  The proleptic Gregorian calendar as pandas timestamps see it: day numbers
  (Python's `date.toordinal`, with 0001-01-01 as day 1), day differences, and
  the weekday with 0 = Monday (`Series.dt.dayofweek`).
*/
module Calendar {

  datatype Date = Date(year: int, month: int, day: int)

  predicate IsLeapYear(y: int)
  {
    y % 4 == 0 && (y % 100 != 0 || y % 400 == 0)
  }

  function DaysInMonth(y: int, m: int): (n: int)
    requires 1 <= m <= 12
    ensures 28 <= n <= 31
    ensures n == 29 <==> m == 2 && IsLeapYear(y)
  {
    if m == 2 then (if IsLeapYear(y) then 29 else 28)
    else if m == 4 || m == 6 || m == 9 || m == 11 then 30
    else 31
  }

  predicate Valid(d: Date)
  {
    1 <= d.month <= 12 && 1 <= d.day <= DaysInMonth(d.year, d.month)
  }

  /** A date that exists on the calendar. */
  type ValidDate = d: Date | Valid(d) witness Date(1970, 1, 1)

  function DaysInYear(y: int): int
  {
    if IsLeapYear(y) then 366 else 365
  }

  /** Days in the months of year `y` before month `m` (a table, as Python's
      `_DAYS_BEFORE_MONTH`, plus one from March on in a leap year). */
  function DaysBeforeMonth(y: int, m: int): int
    requires 1 <= m <= 12
  {
    var table :=
      if m == 1 then 0 else if m == 2 then 31 else if m == 3 then 59
      else if m == 4 then 90 else if m == 5 then 120 else if m == 6 then 151
      else if m == 7 then 181 else if m == 8 then 212 else if m == 9 then 243
      else if m == 10 then 273 else if m == 11 then 304 else 334;
    table + (if m > 2 && IsLeapYear(y) then 1 else 0)
  }

  /** Days in all years before `y` (year 1 starts the count; earlier years
      continue it backwards with floor division). */
  function DaysBeforeYear(y: int): int
  {
    var p := y - 1;
    365 * p + p / 4 - p / 100 + p / 400
  }

  /** Day number of a date: 0001-01-01 is day 1. */
  function DayNumber(d: ValidDate): int
  {
    DaysBeforeYear(d.year) + DaysBeforeMonth(d.year, d.month) + d.day
  }

  /** Day of the week, 0 = Monday ... 6 = Sunday. */
  function Weekday(d: ValidDate): (w: int)
    ensures 0 <= w <= 6
  {
    (DayNumber(d) + 6) % 7
  }

  /** Whole days from `a` to `b`, negative when `b` is earlier
      (`(b - a).days` on two midnight timestamps). */
  function DaysBetween(a: ValidDate, b: ValidDate): int
  {
    DayNumber(b) - DayNumber(a)
  }

  /** Calendar order: year, then month, then day. */
  predicate DateLess(a: Date, b: Date)
  {
    a.year < b.year
    || (a.year == b.year && a.month < b.month)
    || (a.year == b.year && a.month == b.month && a.day < b.day)
  }

  /** The day after `d`, by the month lengths alone. */
  function NextDay(d: ValidDate): (e: ValidDate)
    ensures DateLess(d, e)
  {
    if d.day < DaysInMonth(d.year, d.month) then Date(d.year, d.month, d.day + 1)
    else if d.month < 12 then Date(d.year, d.month + 1, 1)
    else Date(d.year + 1, 1, 1)
  }

  /** The month table agrees with the month lengths. */
  lemma DaysBeforeMonthStep(y: int, m: int)
    requires 1 <= m < 12
    ensures DaysBeforeMonth(y, m + 1) == DaysBeforeMonth(y, m) + DaysInMonth(y, m)
  {
  }

  lemma DaysBeforeMonthEndOfYear(y: int)
    ensures DaysBeforeMonth(y, 12) + DaysInMonth(y, 12) == DaysInYear(y)
  {
  }

  lemma DivStep(y: int, k: int)
    requires k == 4 || k == 100 || k == 400
    ensures y / k - (y - 1) / k == (if y % k == 0 then 1 else 0)
  {
    var q, r := (y - 1) / k, (y - 1) % k;
    assert y - 1 == k * q + r && 0 <= r < k;
    if r == k - 1 {
      assert y == k * (q + 1) + 0;
    } else {
      assert y == k * q + (r + 1);
    }
  }

  lemma MultipleMod(t: int, k: int)
    requires k == 4 || k == 100
    ensures (k * t) % k == 0
  {
  }

  lemma DivisibleChain(y: int)
    ensures y % 400 == 0 ==> y % 100 == 0
    ensures y % 100 == 0 ==> y % 4 == 0
  {
    if y % 400 == 0 {
      var t := y / 400;
      assert y == 100 * (4 * t);
      MultipleMod(4 * t, 100);
    }
    if y % 100 == 0 {
      var t := y / 100;
      assert y == 4 * (25 * t);
      MultipleMod(25 * t, 4);
    }
  }

  /** The closed form for the days before a year counts one year length per year. */
  lemma DaysBeforeYearStep(y: int)
    ensures DaysBeforeYear(y + 1) == DaysBeforeYear(y) + DaysInYear(y)
  {
    DivStep(y, 4);
    DivStep(y, 100);
    DivStep(y, 400);
    DivisibleChain(y);
    assert DaysBeforeYear(y + 1) == 365 * y + y / 4 - y / 100 + y / 400;
  }

  /** Consecutive calendar days have consecutive day numbers. */
  lemma DayNumberNextDay(d: ValidDate)
    ensures DayNumber(NextDay(d)) == DayNumber(d) + 1
  {
    if d.day == DaysInMonth(d.year, d.month) {
      if d.month < 12 {
        DaysBeforeMonthStep(d.year, d.month);
      } else {
        DaysBeforeMonthEndOfYear(d.year);
        DaysBeforeYearStep(d.year);
      }
    }
  }

  /** The weekday advances by one, wrapping from Sunday to Monday. */
  lemma WeekdayNextDay(d: ValidDate)
    ensures Weekday(NextDay(d)) == (Weekday(d) + 1) % 7
  {
    DayNumberNextDay(d);
    ModSucc(DayNumber(d) + 6);
  }

  lemma ModSucc(n: int)
    ensures (n + 1) % 7 == (n % 7 + 1) % 7
  {
    var q, r := n / 7, n % 7;
    assert n == 7 * q + r;
    if r < 6 {
      assert n + 1 == 7 * q + (r + 1);
    } else {
      assert n + 1 == 7 * (q + 1) + 0;
    }
  }

  /** 0001-01-01 is day 1. */
  lemma FirstDayIsDayOne()
    ensures DayNumber(Date(1, 1, 1)) == 1
  {
  }

  lemma {:induction false} DaysBeforeYearMonotone(y1: int, y2: int)
    requires y1 <= y2
    ensures DaysBeforeYear(y1) + 365 * (y2 - y1) <= DaysBeforeYear(y2)
    decreases y2 - y1
  {
    if y1 < y2 {
      DaysBeforeYearStep(y1);
      DaysBeforeYearMonotone(y1 + 1, y2);
    }
  }

  /** A date's day number lies within its own year. */
  lemma DayNumberInYear(d: ValidDate)
    ensures DaysBeforeYear(d.year) < DayNumber(d) <= DaysBeforeYear(d.year + 1)
  {
    DaysBeforeYearStep(d.year);
    DaysBeforeMonthEndOfYear(d.year);
    assert DaysBeforeMonth(d.year, d.month) + DaysInMonth(d.year, d.month) <= DaysBeforeMonth(d.year, 12) + DaysInMonth(d.year, 12);
  }

  lemma MonthsInOrder(y: int, m1: int, m2: int)
    requires 1 <= m1 < m2 <= 12
    ensures DaysBeforeMonth(y, m1) + DaysInMonth(y, m1) <= DaysBeforeMonth(y, m2)
  {
  }

  /** Day numbers follow calendar order. */
  lemma DayNumberOrdered(a: ValidDate, b: ValidDate)
    requires DateLess(a, b)
    ensures DayNumber(a) < DayNumber(b)
  {
    if a.year < b.year {
      DayNumberInYear(a);
      DayNumberInYear(b);
      DaysBeforeYearMonotone(a.year + 1, b.year);
    } else if a.month < b.month {
      MonthsInOrder(a.year, a.month, b.month);
    }
  }

  /** The day difference is zero exactly on the same date and negative
      exactly when the second date is earlier. */
  lemma DaysBetweenSign(a: ValidDate, b: ValidDate)
    ensures DaysBetween(a, b) == 0 <==> a == b
    ensures DaysBetween(a, b) < 0 <==> DateLess(b, a)
    ensures DaysBetween(a, b) > 0 <==> DateLess(a, b)
  {
    if DateLess(a, b) {
      DayNumberOrdered(a, b);
    } else if DateLess(b, a) {
      DayNumberOrdered(b, a);
    } else {
      assert a == b;
    }
  }

  /** 2024-03-01 is a Friday, 2024-03-04 a Monday, and 2024-03-05 is four
      days after the first. */
  lemma March2024()
    ensures Weekday(Date(2024, 3, 1)) == 4
    ensures Weekday(Date(2024, 3, 4)) == 0
    ensures DaysBetween(Date(2024, 3, 1), Date(2024, 3, 5)) == 4
  {
  }
}
