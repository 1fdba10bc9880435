/**
 * The proleptic Gregorian calendar at whole-day granularity, as the liturgical
 * engine uses JavaScript `Date` values: a day is identified by its day number
 * (days since 0001-01-01), so offsets are additions and the weekday is a
 * remainder modulo 7.
 */
module CivilCalendar {

  /** A day number: day 0 is 0001-01-01, which was a Monday. */
  type Day = int

  /** A calendar day. A JavaScript `Date` always denotes a normalised day, which `Valid` states. */
  datatype Date = Date(year: int, month: int, day: int) {

    predicate Valid() {
      1 <= month <= 12 && 1 <= day <= DaysInMonth(year, month)
    }

    function ToDay(): Day
      requires 1 <= month <= 12
    {
      DayOf(year, month, day)
    }
  }

  predicate IsLeapYear(y: int) {
    y % 4 == 0 && (y % 100 != 0 || y % 400 == 0)
  }

  function DaysInMonth(y: int, m: int): (n: int)
    requires 1 <= m <= 12
    ensures 28 <= n <= 31
    ensures n == 29 <==> m == 2 && IsLeapYear(y)
  {
    if m == 2 then (if IsLeapYear(y) then 29 else 28)
    else if m == 4 || m == 6 || m == 9 || m == 11 then 30
    else 31
  }

  /** Days from 0001-01-01 to January 1 of year `y` (negative before year 1). */
  function DaysBeforeYear(y: int): int {
    var p := y - 1;
    365 * p + p / 4 - p / 100 + p / 400
  }

  /** Days from January 1 to the first day of month `m` of year `y`. */
  function DaysBeforeMonth(y: int, m: int): int
    requires 1 <= m <= 12
  {
    var common := [0, 31, 59, 90, 120, 151, 181, 212, 243, 273, 304, 334][m - 1];
    common + (if m > 2 && IsLeapYear(y) then 1 else 0)
  }

  /**
   * `new Date(y, m - 1, d)` as a day number. The day of month enters linearly,
   * so a day outside the month lands in a neighbouring month, as the `Date`
   * constructor and `setDate` carry it.
   */
  function DayOf(y: int, m: int, d: int): Day
    requires 1 <= m <= 12
  {
    DaysBeforeYear(y) + DaysBeforeMonth(y, m) + d - 1
  }

  /** `getDay()`: 0 = Sunday, 1 = Monday, ..., 6 = Saturday. */
  function Weekday(n: Day): (w: int)
    ensures 0 <= w < 7
  {
    (n + 1) % 7
  }

  /**
   * The year `new Date(year, monthIndex, day)` builds: the constructor reads
   * the years 0..99 as 1900..1999 and keeps every other year.
   */
  function FullYear(year: int): (y: int)
    ensures 0 <= year ==> 100 <= y
    ensures year < 0 || 100 <= year ==> y == year
    ensures 0 <= year < 100 ==> y - year == 1900
  {
    if 0 <= year <= 99 then 1900 + year else year
  }

  /** The calendar day after a valid date. */
  function NextDate(date: Date): (r: Date)
    requires date.Valid()
    ensures r.Valid()
  {
    if date.day < DaysInMonth(date.year, date.month) then Date(date.year, date.month, date.day + 1)
    else if date.month < 12 then Date(date.year, date.month + 1, 1)
    else Date(date.year + 1, 1, 1)
  }

  /** A year has 366 days exactly when it is a leap year. */
  lemma {:induction false} YearLength(y: int)
    ensures DaysBeforeYear(y + 1) - DaysBeforeYear(y) == if IsLeapYear(y) then 366 else 365
  {
    MultipleStep(y);
    assert y % 100 == 0 ==> y % 4 == 0 by {
      if y % 100 == 0 {
        assert y == 4 * (25 * (y / 100));
      }
    }
    assert y % 400 == 0 ==> y % 100 == 0 by {
      if y % 400 == 0 {
        assert y == 100 * (4 * (y / 400));
      }
    }
  }

  /** Between `y - 1` and `y` the count of multiples of 4, 100 and 400 grows exactly at a multiple. */
  lemma MultipleStep(y: int)
    ensures y / 4 - (y - 1) / 4 == if y % 4 == 0 then 1 else 0
    ensures y / 100 - (y - 1) / 100 == if y % 100 == 0 then 1 else 0
    ensures y / 400 - (y - 1) / 400 == if y % 400 == 0 then 1 else 0
  {
  }

  /** The day numbering has no gaps: the next calendar day is the next day number. */
  lemma {:induction false} DaysAreConsecutive(date: Date)
    requires date.Valid()
    ensures NextDate(date).ToDay() == date.ToDay() + 1
  {
    if date.day == DaysInMonth(date.year, date.month) && date.month == 12 {
      YearLength(date.year);
    }
  }
}
