/** Integer Gregorian calendar arithmetic standing in for the two `Date`
    computations of the calendar view: the length of a month and the
    weekday of its first day (Sunday = 0). Months are 0-based, as in `Date`. */
module Gregorian {

  predicate IsLeapYear(y: int) {
    y % 4 == 0 && (y % 100 != 0 || y % 400 == 0)
  }

  /** `getDaysInMonth`: `new Date(y, m + 1, 0).getDate()`. */
  function DaysInMonth(y: int, m: int): (n: int)
    requires 0 <= m < 12
    ensures 28 <= n <= 31
    ensures m == 1 ==> (n == 29 <==> IsLeapYear(y))
  {
    if m == 1 then (if IsLeapYear(y) then 29 else 28)
    else if m == 3 || m == 5 || m == 8 || m == 10 then 30
    else 31
  }

  /** Days before 1 January of year y, counting from 1 January of year 1 of
      the proleptic Gregorian calendar. */
  function DaysBeforeYear(y: int): int {
    365 * (y - 1) + (y - 1) / 4 - (y - 1) / 100 + (y - 1) / 400
  }

  /** Days of year y before the first of month m, from the cumulative table. */
  function DaysBeforeMonth(y: int, m: int): int
    requires 0 <= m < 12
  {
    [0, 31, 59, 90, 120, 151, 181, 212, 243, 273, 304, 334][m]
      + if m >= 2 && IsLeapYear(y) then 1 else 0
  }

  /** The serial number of a date: 1 January of year 1 is day 1, a Monday,
      so the number modulo 7 is the weekday with Sunday as 0. */
  function DayNumber(y: int, m: int, d: int): int
    requires 0 <= m < 12
  {
    DaysBeforeYear(y) + DaysBeforeMonth(y, m) + d
  }

  /** `getFirstDayOfMonth`: `new Date(y, m, 1).getDay()`. */
  function FirstDayOfMonth(y: int, m: int): (w: int)
    requires 0 <= m < 12
    ensures 0 <= w < 7
  {
    DayNumber(y, m, 1) % 7
  }

  /** A year has 366 days exactly when it is a leap year. */
  lemma YearLength(y: int)
    ensures DaysBeforeYear(y + 1) - DaysBeforeYear(y) == if IsLeapYear(y) then 366 else 365
  {
    var x := y - 1;
    Increment(x);
    var a, b, c := y / 4 - x / 4, y / 100 - x / 100, y / 400 - x / 400;
    assert DaysBeforeYear(y + 1) - DaysBeforeYear(y) == 365 + a - b + c;
    LeapDivisors(y);
  }

  lemma LeapDivisors(y: int)
    ensures y % 400 == 0 ==> y % 100 == 0
    ensures y % 100 == 0 ==> y % 4 == 0
  {
  }

  /** Going from x to x + 1 raises x / k by one exactly when x + 1 is a
      multiple of k, for each divisor of the leap-year rule. */
  lemma Increment(x: int)
    ensures (x + 1) / 4 - x / 4 == if (x + 1) % 4 == 0 then 1 else 0
    ensures (x + 1) / 100 - x / 100 == if (x + 1) % 100 == 0 then 1 else 0
    ensures (x + 1) / 400 - x / 400 == if (x + 1) % 400 == 0 then 1 else 0
  {
  }

  /** The month-length table agrees with the day count: the day before the
      first of the next month (day 0 of month m + 1) is day DaysInMonth(y, m)
      of month m. */
  lemma MonthLength(y: int, m: int)
    requires 0 <= m < 12
    ensures DayNumber(y, m, DaysInMonth(y, m)) + 1
         == if m < 11 then DayNumber(y, m + 1, 1) else DayNumber(y + 1, 0, 1)
  {
    if m == 11 {
      YearLength(y);
    }
  }

  /** Each month starts on the weekday after the last day of the month before. */
  lemma NextFirstDay(y: int, m: int)
    requires 0 <= m < 12
    ensures (if m < 11 then FirstDayOfMonth(y, m + 1) else FirstDayOfMonth(y + 1, 0))
         == (FirstDayOfMonth(y, m) + DaysInMonth(y, m)) % 7
  {
    MonthLength(y, m);
    var d := DayNumber(y, m, 1);
    var n := DaysInMonth(y, m);
    assert DayNumber(y, m, n) + 1 == d + n;
    WeekdayShift(d, n);
  }

  lemma WeekdayShift(d: int, n: int)
    ensures (d + n) % 7 == (d % 7 + n) % 7
  {
    var q := d / 7;
    assert d + n == 7 * q + (d % 7 + n);
  }

  /** The month the calendar shows: December 2025 has 31 days and begins on a Monday. */
  lemma December2025()
    ensures DaysInMonth(2025, 11) == 31
    ensures FirstDayOfMonth(2025, 11) == 1
  {
  }

  /** Two anchors: 1 January 1970 was a Thursday, 1 January 2000 a Saturday,
      and 2000 was a leap year while 1900 was not. */
  lemma KnownDates()
    ensures FirstDayOfMonth(1970, 0) == 4
    ensures FirstDayOfMonth(2000, 0) == 6
    ensures DaysInMonth(2000, 1) == 29 && DaysInMonth(1900, 1) == 28 && DaysInMonth(2024, 1) == 29
  {
  }
}
