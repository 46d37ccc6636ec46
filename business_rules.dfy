/**
 * The working-hours policy and the per-day rules (businessRules.js):
 * Monday to Friday 8.5 expected hours, Saturday 4, Sunday off; worked
 * hours from in/out times with an overnight wrap; the leave test; and
 * the expected total of a month.
 *
 * Hours are exact reals. `Math.round(x * 100) / 100` is RoundHundredths.
 */
module BusinessRules {
  import opened Wrappers
  import opened Calendar
  import opened Times

  const SUNDAY := 0
  const SATURDAY := 6

  /** `isWorkingDay`: every day but Sunday. */
  predicate IsWorkingDay(d: Date): (b: bool)
    ensures b <==> 1 <= DayOfWeek(d) <= 6
  {
    DayOfWeek(d) != SUNDAY
  }

  /** `getExpectedHours`: the policy table, and positive exactly on working days. */
  function ExpectedHours(d: Date): (h: real)
    ensures h == 0.0 || h == 4.0 || h == 8.5
    ensures h == 0.0 <==> DayOfWeek(d) == SUNDAY
    ensures h == 4.0 <==> DayOfWeek(d) == SATURDAY
    ensures h == 8.5 <==> 1 <= DayOfWeek(d) <= 5
    ensures h > 0.0 <==> IsWorkingDay(d)
  {
    var day := DayOfWeek(d);
    if day == SUNDAY then 0.0
    else if day == SATURDAY then 4.0
    else 8.5
  }

  /** `Math.round(x * 100) / 100`: half-up rounding to a whole number of hundredths. */
  function RoundHundredths(x: real): (r: real)
    ensures x - 0.005 < r <= x + 0.005
    ensures (r * 100.0).Floor as real == r * 100.0
  {
    (x * 100.0 + 0.5).Floor as real / 100.0
  }

  /** Rounding a value that is already in hundredths changes nothing. */
  lemma RoundHundredthsIdempotent(x: real)
    ensures RoundHundredths(RoundHundredths(x)) == RoundHundredths(x)
  {
    var k := (x * 100.0 + 0.5).Floor;
    var r := RoundHundredths(x);
    assert r * 100.0 == k as real;
    assert (r * 100.0 + 0.5).Floor == k;
  }

  /**
   * The minutes from `inTime` to `outTime`, adding a day when the
   * difference is negative (an out-time on the next day).
   */
  function ElapsedMinutes(inTime: Clock, outTime: Clock): (diff: int)
    ensures IsCanonical(inTime) && IsCanonical(outTime) ==>
      0 <= diff < 1440 && diff == (MinutesOf(outTime) - MinutesOf(inTime)) % 1440
    ensures MinutesOf(inTime) <= MinutesOf(outTime) ==> diff == MinutesOf(outTime) - MinutesOf(inTime)
  {
    var diff := MinutesOf(outTime) - MinutesOf(inTime);
    if diff < 0 then diff + 24 * 60 else diff
  }

  /** `calculateWorkedHours`: no hours unless both times are present. */
  function WorkedHours(inTime: Option<Clock>, outTime: Option<Clock>): (h: real)
    ensures inTime.None? || outTime.None? ==> h == 0.0
    ensures inTime.Some? && outTime.Some? ==>
      h == RoundHundredths(ElapsedMinutes(inTime.value, outTime.value) as real / 60.0)
    ensures inTime.Some? && outTime.Some? && IsCanonical(inTime.value) && IsCanonical(outTime.value) ==>
      0.0 <= h < 24.0
  {
    if inTime.None? || outTime.None? then 0.0
    else RoundHundredths(ElapsedMinutes(inTime.value, outTime.value) as real / 60.0)
  }

  /** 10:00 to 18:30 is 8.5 hours, 22:00 to 06:00 is 8 hours, equal times are 0 hours. */
  lemma WorkedHoursExamples()
    ensures WorkedHours(Some(Clock(10, 0)), Some(Clock(18, 30))) == 8.5
    ensures WorkedHours(Some(Clock(22, 0)), Some(Clock(6, 0))) == 8.0
    ensures WorkedHours(Some(Clock(9, 15)), Some(Clock(9, 15))) == 0.0
    ensures WorkedHours(Some(Clock(10, 0)), Some(Clock(14, 0))) == 4.0
  {
  }

  /**
   * The wrap adds a single day, so a time beyond 24:00 (which the text
   * parser lets through, since it does not range-check) can give a
   * negative result: in-time 30:00, out-time 01:00 is -5 hours.
   */
  lemma WorkedHoursOutOfRangeIsNegative()
    ensures WorkedHours(Some(Clock(30, 0)), Some(Clock(1, 0))) == -5.0
  {
    assert ElapsedMinutes(Clock(30, 0), Clock(1, 0)) == -300;
    assert (-500.0 + 0.5).Floor == -500;
  }

  /** `isLeave`: a working day with a missing in- or out-time. */
  predicate IsLeave(inTime: Option<Clock>, outTime: Option<Clock>, d: Date): (b: bool)
    ensures b ==> ExpectedHours(d) > 0.0 && WorkedHours(inTime, outTime) == 0.0
    ensures ExpectedHours(d) > 0.0 && (inTime.None? || outTime.None?) ==> b
    ensures inTime.Some? && outTime.Some? ==> !b
  {
    if !IsWorkingDay(d) then false
    else inTime.None? || outTime.None?
  }

  /**
   * Leave is decided by absence alone: a leave day has no worked hours,
   * but a working day with both times present is not leave even when
   * it has no worked hours either.
   */
  lemma LeaveIgnoresWorkedHours(inTime: Option<Clock>, outTime: Option<Clock>, d: Date)
    ensures IsLeave(inTime, outTime, d) ==> WorkedHours(inTime, outTime) == 0.0
    ensures !IsWorkingDay(d) ==> !IsLeave(inTime, outTime, d)
    ensures inTime.Some? && outTime.Some? ==> !IsLeave(inTime, outTime, d)
    ensures IsWorkingDay(d) && inTime.Some? && inTime == outTime ==>
      !IsLeave(inTime, outTime, d) && WorkedHours(inTime, outTime) == 0.0
  {
  }

  /** The expected hours of days 1..n of a month. */
  function ExpectedThrough(year: int, month: int, n: nat): real {
    if n == 0 then 0.0
    else ExpectedThrough(year, month, n - 1) + ExpectedHours(Date(year, month, n))
  }

  /**
   * The month total `getTotalExpectedHoursForMonth` computes: the sum
   * over every day of the month, and 0 for a month outside 0..11, where
   * `new Date(year, month, 1)` lands in another month and the walk stops
   * at once.
   */
  function MonthExpected(year: int, month: int): (total: real)
    ensures 0.0 <= total <= 31.0 * 8.5
    ensures !(0 <= month < 12) ==> total == 0.0
  {
    if 0 <= month < 12 then
      var y := LocalYear(year);
      ExpectedThroughBounds(y, month, DaysInMonth(y, month));
      ExpectedThrough(y, month, DaysInMonth(y, month))
    else 0.0
  }

  /**
   * `getTotalExpectedHoursForMonth`: walk the month day by day from the
   * first, adding each day's expected hours, until the date leaves the
   * month; the walk takes exactly as many steps as the month has days.
   */
  method TotalExpectedHoursForMonth(year: int, month: int) returns (total: real, ghost steps: nat)
    ensures total == MonthExpected(year, month)
    ensures steps == if 0 <= month < 12 then DaysInMonth(LocalYear(year), month) else 0
  {
    var date := FirstOfMonth(year, month);
    total := 0.0;
    steps := 0;
    while date.month == month
      invariant ValidDate(date)
      invariant date.month == month ==>
        date.year == LocalYear(year) && steps == date.day - 1 &&
        total == ExpectedThrough(date.year, month, date.day - 1)
      invariant date.month != month ==> total == MonthExpected(year, month)
      invariant date.month != month ==> steps == if 0 <= month < 12 then DaysInMonth(LocalYear(year), month) else 0
      decreases if date.month == month then DaysInMonth(date.year, date.month) - date.day + 1 else 0
    {
      MonthWalkStep(date);
      total := total + ExpectedHours(date);
      steps := steps + 1;
      date := NextDay(date);
    }
  }

  /** One step of the walk: the next day of the month, or out of the month after its last day. */
  lemma MonthWalkStep(d: Date)
    requires ValidDate(d)
    ensures ExpectedThrough(d.year, d.month, d.day) == ExpectedThrough(d.year, d.month, d.day - 1) + ExpectedHours(d)
    ensures NextDay(d).month == d.month ==> NextDay(d) == Date(d.year, d.month, d.day + 1)
    ensures NextDay(d).month != d.month ==> d.day == DaysInMonth(d.year, d.month)
  {
  }

  lemma {:induction false} ExpectedThroughBounds(year: int, month: int, n: nat)
    ensures 0.0 <= ExpectedThrough(year, month, n) <= 8.5 * n as real
  {
    if n > 0 {
      ExpectedThroughBounds(year, month, n - 1);
    }
  }

  /** How many of days 1..n of a month fall on a weekday between `from` and `to`. */
  function CountDays(year: int, month: int, n: nat, from: int, to: int): nat {
    if n == 0 then 0
    else
      var here := if from <= DayOfWeek(Date(year, month, n)) <= to then 1 else 0;
      CountDays(year, month, n - 1, from, to) + here
  }

  /** The sum is 8.5 hours per Monday..Friday plus 4 hours per Saturday. */
  lemma {:induction false} ExpectedThroughByWeekday(year: int, month: int, n: nat)
    ensures ExpectedThrough(year, month, n) ==
      8.5 * CountDays(year, month, n, 1, 5) as real + 4.0 * CountDays(year, month, n, SATURDAY, SATURDAY) as real
  {
    if n > 0 {
      ExpectedThroughByWeekday(year, month, n - 1);
    }
  }

  /** Every month has a working day among its first two days, so its total is positive. */
  lemma MonthExpectedPositive(year: int, month: int)
    requires 0 <= month < 12
    ensures MonthExpected(year, month) > 0.0
  {
    var y := LocalYear(year);
    assert ExpectedThrough(y, month, 2) > 0.0 by {
      NextDayWeekday(Date(y, month, 1));
      assert NextDay(Date(y, month, 1)) == Date(y, month, 2);
      assert ExpectedThrough(y, month, 1) == ExpectedHours(Date(y, month, 1));
      assert ExpectedThrough(y, month, 2) == ExpectedHours(Date(y, month, 1)) + ExpectedHours(Date(y, month, 2));
    }
    ExpectedThroughMonotone(y, month, 2, DaysInMonth(y, month));
  }

  lemma {:induction false} ExpectedThroughMonotone(year: int, month: int, m: nat, n: nat)
    requires m <= n
    ensures ExpectedThrough(year, month, m) <= ExpectedThrough(year, month, n)
    decreases n - m
  {
    if m < n {
      ExpectedThroughMonotone(year, month, m, n - 1);
    }
  }

  /** In January 2024 day `7k + j` falls on weekday `j % 7`: the month starts on a Monday. */
  lemma January2024Weekday(k: nat, j: int)
    requires 1 <= j <= 7
    ensures DayOfWeek(Date(2024, 0, 7 * k + j)) == j % 7
  {
    assert YearShift(2023) == 7 * 359;
    assert Tally(Date(2024, 0, 7 * k + j)) == 7 * (359 + k) + j;
  }

  /** Day `7k + j` of January 2024 adds the hours of weekday `j % 7`. */
  lemma January2024Day(k: nat, j: int)
    requires 1 <= j <= 7
    ensures ExpectedThrough(2024, 0, 7 * k + j) ==
      ExpectedThrough(2024, 0, 7 * k + j - 1) + (if j <= 5 then 8.5 else if j == 6 then 4.0 else 0.0)
  {
    January2024Weekday(k, j);
  }

  lemma January2024Week(k: nat)
    ensures ExpectedThrough(2024, 0, 7 * k + 7) == ExpectedThrough(2024, 0, 7 * k) + 46.5
  {
    January2024Day(k, 1);
    January2024Day(k, 2);
    January2024Day(k, 3);
    January2024Day(k, 4);
    January2024Day(k, 5);
    January2024Day(k, 6);
    January2024Day(k, 7);
  }

  /** The first `k` full weeks of January 2024 expect 46.5 hours each. */
  lemma {:induction false} January2024Weeks(k: nat)
    ensures ExpectedThrough(2024, 0, 7 * k) == 46.5 * k as real
  {
    if k > 0 {
      January2024Weeks(k - 1);
      January2024Week(k - 1);
    }
  }

  /** The three days after the first `k` full weeks of January 2024 are a Monday, a Tuesday and a Wednesday. */
  lemma January2024Tail(k: nat)
    ensures ExpectedThrough(2024, 0, 7 * k + 3) == ExpectedThrough(2024, 0, 7 * k) + 25.5
  {
    January2024Day(k, 1);
    January2024Day(k, 2);
    January2024Day(k, 3);
  }

  /** January 2024 has 23 weekdays and 4 Saturdays: 211.5 expected hours. */
  lemma January2024Expected()
    ensures MonthExpected(2024, 0) == 211.5
  {
    assert ExpectedThrough(2024, 0, 28) == 186.0 by { January2024Weeks(4); }
    assert ExpectedThrough(2024, 0, 31) == 211.5 by { January2024Tail(4); }
  }
}
