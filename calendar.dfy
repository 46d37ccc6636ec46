/**
 * Local calendar dates as JavaScript's `Date` handles them at midnight:
 * the proleptic Gregorian calendar, 0-indexed months, `getDay()` with
 * 0 for Sunday, `setDate(getDate() + 1)` to step one day, and the
 * `new Date(year, month, 1)` constructor with its legacy two-digit-year
 * rule and its carrying of out-of-range months into the year.
 */
module Calendar {

  /** A calendar date; `month` is 0-indexed (0 = January) as in JavaScript. */
  datatype Date = Date(year: int, month: int, day: int)

  predicate IsLeapYear(year: int) {
    year % 4 == 0 && (year % 100 != 0 || year % 400 == 0)
  }

  function DaysInMonth(year: int, month: int): (n: int)
    requires 0 <= month < 12
    ensures 28 <= n <= 31
    ensures month == 1 ==> (n == 29 <==> IsLeapYear(year))
  {
    if month == 1 then (if IsLeapYear(year) then 29 else 28)
    else if month == 3 || month == 5 || month == 8 || month == 10 then 30
    else 31
  }

  predicate ValidDate(d: Date) {
    0 <= d.month < 12 && 1 <= d.day <= DaysInMonth(d.year, d.month)
  }

  /** Strict chronological order. */
  predicate Before(a: Date, b: Date) {
    || a.year < b.year
    || (a.year == b.year && a.month < b.month)
    || (a.year == b.year && a.month == b.month && a.day < b.day)
  }

  /** The day-of-week offset of each month in the weekday formula. */
  function MonthOffset(month: int): int {
    match month
    case 0 => 0 case 1 => 3 case 2 => 2 case 3 => 5 case 4 => 0 case 5 => 3
    case 6 => 5 case 7 => 1 case 8 => 4 case 9 => 6 case 10 => 2 case _ => 4
  }

  /** The number of leap-year corrections up to the end of `y`, plus `y`. */
  function YearShift(y: int): int {
    y + y / 4 - y / 100 + y / 400
  }

  /** The weekday count of a date before it is reduced modulo 7. */
  function Tally(d: Date): int {
    var y := if d.month < 2 then d.year - 1 else d.year;
    YearShift(y) + MonthOffset(d.month) + d.day
  }

  /**
   * `date.getDay()`: 0 = Sunday, 1 = Monday, ..., 6 = Saturday.
   * January and February count in the previous year, so that the leap
   * day falls at the end of the counting year.
   */
  function DayOfWeek(d: Date): (w: int)
    ensures 0 <= w < 7
  {
    Tally(d) % 7
  }

  /** `date.setDate(date.getDate() + 1)` */
  function NextDay(d: Date): (e: Date)
    requires ValidDate(d)
    ensures ValidDate(e) && Before(d, e)
  {
    if d.day < DaysInMonth(d.year, d.month) then Date(d.year, d.month, d.day + 1)
    else if d.month < 11 then Date(d.year, d.month + 1, 1)
    else Date(d.year + 1, 0, 1)
  }

  lemma DivStep4(y: int)
    ensures y / 4 - (y - 1) / 4 == if y % 4 == 0 then 1 else 0
  {
  }

  lemma DivStep100(y: int)
    ensures y / 100 - (y - 1) / 100 == if y % 100 == 0 then 1 else 0
  {
  }

  lemma DivStep400(y: int)
    ensures y / 400 - (y - 1) / 400 == if y % 400 == 0 then 1 else 0
  {
  }

  lemma DivisibleBy400(y: int)
    requires y % 400 == 0
    ensures y % 100 == 0
  {
    var k := y / 400;
    assert y == 100 * (4 * k);
  }

  lemma DivisibleBy100(y: int)
    requires y % 100 == 0
    ensures y % 4 == 0
  {
    var k := y / 100;
    assert y == 4 * (25 * k);
  }

  /** A year adds one day of weekday shift, a leap year two. */
  lemma YearShiftStep(y: int)
    ensures YearShift(y) - YearShift(y - 1) == if IsLeapYear(y) then 2 else 1
  {
    DivStep4(y);
    DivStep100(y);
    DivStep400(y);
    if y % 400 == 0 {
      DivisibleBy400(y);
      DivisibleBy100(y);
    } else if y % 100 == 0 {
      DivisibleBy100(y);
    }
  }

  lemma ModStep(a: int, b: int, k: int)
    requires b == a + 1 + 7 * k
    ensures b % 7 == (a % 7 + 1) % 7
  {
  }

  /** Stepping one day advances the weekday by one, across month and year ends. */
  lemma NextDayWeekday(d: Date)
    requires ValidDate(d)
    ensures DayOfWeek(NextDay(d)) == (DayOfWeek(d) + 1) % 7
  {
    var e := NextDay(d);
    if d.day < DaysInMonth(d.year, d.month) {
      ModStep(Tally(d), Tally(e), 0);
    } else if d.month == 1 {
      YearShiftStep(d.year);
      ModStep(Tally(d), Tally(e), -4);
    } else if d.month < 11 {
      var k := if d.month in {3, 6, 9} then -5 else -4;
      ModStep(Tally(d), Tally(e), k);
    } else {
      ModStep(Tally(d), Tally(e), -5);
    }
  }

  /** The year `new Date(year, ...)` means: 0..99 stand for 1900..1999. */
  function LocalYear(year: int): (y: int)
    ensures !(0 <= y <= 99)
    ensures y != year ==> 0 <= year <= 99 && y == year + 1900
  {
    if 0 <= year <= 99 then 1900 + year else year
  }

  /**
   * `new Date(year, month, 1)`: a month outside 0..11 is carried into
   * the year, so the result lies in month `month` exactly when that
   * month is in range.
   */
  function FirstOfMonth(year: int, month: int): (d: Date)
    ensures ValidDate(d) && d.day == 1
    ensures d.month == month <==> 0 <= month < 12
    ensures 0 <= month < 12 ==> d.year == LocalYear(year)
  {
    Date(LocalYear(year) + month / 12, month % 12, 1)
  }

  /** The last day of a month, `new Date(year, month + 1, 0)`. */
  function LastOfMonth(year: int, month: int): (d: Date)
    requires 0 <= month < 12
    ensures ValidDate(d) && d.year == LocalYear(year) && d.month == month
    ensures NextDay(d).month != month
  {
    Date(LocalYear(year), month, DaysInMonth(LocalYear(year), month))
  }
}
