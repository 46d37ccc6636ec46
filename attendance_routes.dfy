/**
 * The two report handlers of the attendance routes, lifted out of HTTP:
 * query validation, the monthly summary (totals, leave count and
 * productivity) and the daily breakdown, which walks every calendar day
 * of the month and merges the stored records with entries synthesized
 * for the days that have none. The database query is a parameter: the
 * stored records of one employee for the requested month.
 */
module AttendanceRoutes {
  import opened Wrappers
  import opened Strings
  import opened Calendar
  import opened Times
  import opened BusinessRules
  import opened Records

  // ---------------------------------------------------------------- query

  /** The raw query string values; an absent parameter is `None`. */
  datatype QueryParams = QueryParams(employeeName: Option<string>, year: Option<string>, month: Option<string>)

  /** A validated query: `month` is 0-indexed. */
  datatype Query = Query(employeeName: string, year: int, month: int)

  /** The two 400 responses of the validation. */
  datatype QueryError = MissingParameters | InvalidYearOrMonth

  /** A parameter is missing when absent; the name also when empty (it is falsy). */
  predicate MissingParameter(p: QueryParams) {
    p.employeeName.None? || p.employeeName == Some([]) || p.year.None? || p.month.None?
  }

  /**
   * The validation both handlers run before touching the store: all three
   * parameters present, both numbers readable by `parseInt(_, 10)` and the
   * month in 0..11.
   */
  function ValidateQuery(p: QueryParams): (r: Result<Query, QueryError>)
    ensures r == Failure(MissingParameters) <==> MissingParameter(p)
    ensures r == Failure(InvalidYearOrMonth) <==>
      && !MissingParameter(p)
      && (|| ParseInt(p.year.value).None? || ParseInt(p.month.value).None?
          || !(0 <= ParseInt(p.month.value).value <= 11))
    ensures r.Success? ==>
      && r.value.employeeName == p.employeeName.value && r.value.employeeName != []
      && Some(r.value.year) == ParseInt(p.year.value)
      && Some(r.value.month) == ParseInt(p.month.value)
      && 0 <= r.value.month <= 11
  {
    if MissingParameter(p) then Failure(MissingParameters)
    else
      var year := ParseInt(p.year.value);
      var month := ParseInt(p.month.value);
      if year.None? || month.None? || month.value < 0 || month.value > 11 then Failure(InvalidYearOrMonth)
      else Success(Query(p.employeeName.value, year.value, month.value))
  }

  /** Any name with the year and month written as decimal numbers passes. */
  lemma ValidateWrittenQuery(name: string, year: nat, month: nat)
    requires name != [] && month < 12
    ensures ValidateQuery(QueryParams(Some(name), Some(Digits(year)), Some(Digits(month))))
      == Success(Query(name, year, month))
  {
    ParseIntOfDigits(year);
    ParseIntOfDigits(month);
  }

  // ---------------------------------------------------------------- summary

  const MAX_LEAVES_ALLOWED: nat := 2

  /** The JSON of the monthly summary. */
  datatype Summary = Summary(
    employeeName: string,
    year: int,
    month: int,
    totalExpectedHours: real,
    totalActualHours: real,
    leavesUsed: nat,
    maxLeavesAllowed: nat,
    productivity: real,
    recordCount: nat)

  /** `record.workedHours || 0` */
  function WorkedOrZero(r: StoredRecord): real {
    r.workedHours.GetOr(0.0)
  }

  /** The `reduce`: the sum of the stored worked hours, a missing value counting as 0. */
  function ActualHours(records: seq<StoredRecord>): (total: real)
    ensures (forall i :: 0 <= i < |records| ==> WorkedOrZero(records[i]) >= 0.0) ==> total >= 0.0
  {
    if records == [] then 0.0 else WorkedOrZero(records[0]) + ActualHours(records[1..])
  }

  /** The sum splits over a concatenation, so the order of the records does not matter for it. */
  lemma {:induction false} ActualHoursAppend(a: seq<StoredRecord>, b: seq<StoredRecord>)
    ensures ActualHours(a + b) == ActualHours(a) + ActualHours(b)
  {
    if a != [] {
      assert (a + b)[0] == a[0];
      assert (a + b)[1..] == a[1..] + b;
      ActualHoursAppend(a[1..], b);
    } else {
      assert a + b == b;
    }
  }

  /** One record contributes its worked hours, or 0 when it has none. */
  lemma ActualHoursSingle(r: StoredRecord)
    ensures ActualHours([r]) == WorkedOrZero(r)
  {
    assert [r][1..] == [];
  }

  /** Running the reduce one more record adds that record's hours (or 0) to the accumulator. */
  lemma ActualHoursLast(records: seq<StoredRecord>)
    requires records != []
    ensures ActualHours(records) == ActualHours(records[..|records| - 1]) + WorkedOrZero(records[|records| - 1])
  {
    var n := |records| - 1;
    assert records == records[..n] + [records[n]];
    ActualHoursAppend(records[..n], [records[n]]);
    ActualHoursSingle(records[n]);
  }

  /** The `filter(record => record.isLeave === true).length`. */
  function LeavesUsed(records: seq<StoredRecord>): (n: nat)
    ensures n <= |records|
    ensures n == 0 <==> forall i :: 0 <= i < |records| ==> records[i].isLeave != Some(true)
  {
    if records == [] then 0
    else
      var init := records[..|records| - 1];
      assert forall i :: 0 <= i < |init| ==> init[i] == records[i];
      LeavesUsed(init) + (if records[|records| - 1].isLeave == Some(true) then 1 else 0)
  }

  /** The leaves among the first `n` records are the positions below `n` whose flag is `true`. */
  lemma {:induction false} LeavesUsedPrefix(records: seq<StoredRecord>, n: nat)
    requires n <= |records|
    ensures LeavesUsed(records[..n]) == |set i | 0 <= i < n && records[i].isLeave == Some(true)|
  {
    if n > 0 {
      LeavesUsedPrefix(records, n - 1);
      assert records[..n][..n - 1] == records[..n - 1];
      var before := set i | 0 <= i < n - 1 && records[i].isLeave == Some(true);
      var after := set i | 0 <= i < n && records[i].isLeave == Some(true);
      SetStep(before, after, n - 1, records[n - 1].isLeave == Some(true));
    }
  }

  /** Adding the index `k` above every member of a set of indices, or not. */
  lemma SetStep(before: set<int>, after: set<int>, k: int, flag: bool)
    requires forall i :: i in before ==> i < k
    requires forall i :: i in after <==> i in before || (i == k && flag)
    ensures |after| == |before| + (if flag then 1 else 0)
  {
    var extra: set<int> := if flag then {k} else {};
    forall i
      ensures i in after <==> i in before + extra
    {
    }
    assert after == before + extra;
    assert before * extra == {};
  }

  /** The count is the number of positions whose stored flag is `true`. */
  lemma LeavesUsedCountsFlags(records: seq<StoredRecord>)
    ensures LeavesUsed(records) == |set i | 0 <= i < |records| && records[i].isLeave == Some(true)|
  {
    LeavesUsedPrefix(records, |records|);
    assert records[..|records|] == records;
  }

  /**
   * Productivity: 0 when nothing is expected, otherwise the percentage
   * of the unrounded actual over the expected hours, rounded half-up to
   * hundredths.
   */
  function Productivity(actual: real, expected: real): (p: real)
    ensures expected <= 0.0 ==> p == 0.0
    ensures expected > 0.0 ==>
      actual / expected * 100.0 - 0.005 < p <= actual / expected * 100.0 + 0.005
    ensures (p * 100.0).Floor as real == p * 100.0
  {
    if expected > 0.0 then RoundHundredths(actual / expected * 100.0) else 0.0
  }

  lemma RoundHundredthsMonotone(x: real, y: real)
    requires x <= y
    ensures RoundHundredths(x) <= RoundHundredths(y)
  {
    assert (x * 100.0 + 0.5).Floor <= (y * 100.0 + 0.5).Floor;
  }

  /** More worked hours never lower the productivity; meeting the expectation exactly is 100. */
  lemma ProductivityMonotone(a: real, b: real, expected: real)
    requires a <= b
    ensures Productivity(a, expected) <= Productivity(b, expected)
    ensures expected > 0.0 ==> Productivity(expected, expected) == 100.0
  {
    if expected > 0.0 {
      assert a / expected * 100.0 <= b / expected * 100.0 by {
        assert a / expected <= b / expected;
      }
      RoundHundredthsMonotone(a / expected * 100.0, b / expected * 100.0);
      assert expected / expected * 100.0 == 100.0;
      RoundHundredthsIdempotent(100.0);
      assert RoundHundredths(100.0) == 100.0 by {
        assert (100.0 * 100.0 + 0.5).Floor == 10000;
      }
    }
  }

  /**
   * The monthly summary of a validated query over the records the store
   * returned. The expected total is the policy's month total whatever the
   * records are; the leave count counts stored flags only and never
   * exceeds the record count; the limit of two leaves is reported, not
   * enforced.
   */
  function MonthlySummary(q: Query, records: seq<StoredRecord>): (s: Summary)
    ensures s.employeeName == q.employeeName && s.year == q.year && s.month == q.month
    ensures s.totalExpectedHours == MonthExpected(q.year, q.month)
    ensures s.totalActualHours == RoundHundredths(ActualHours(records))
    ensures s.leavesUsed <= s.recordCount == |records|
    ensures s.leavesUsed == |set i | 0 <= i < |records| && records[i].isLeave == Some(true)|
    ensures s.maxLeavesAllowed == MAX_LEAVES_ALLOWED
    ensures s.productivity == Productivity(ActualHours(records), MonthExpected(q.year, q.month))
  {
    var expected := MonthExpected(q.year, q.month);
    var actual := ActualHours(records);
    LeavesUsedCountsFlags(records);
    Summary(q.employeeName, q.year, q.month, expected, RoundHundredths(actual),
      LeavesUsed(records), MAX_LEAVES_ALLOWED, Productivity(actual, expected), |records|)
  }

  /**
   * The summary handler: a request that fails validation is answered
   * without the store (its answer does not depend on `fetch`); a valid one
   * summarizes what the store returns for it.
   */
  function MonthlySummaryResponse(p: QueryParams, fetch: Query -> seq<StoredRecord>): (r: Result<Summary, QueryError>)
    ensures ValidateQuery(p).Failure? ==> r == Failure(ValidateQuery(p).error)
    ensures r.Success? ==> ValidateQuery(p).Success? && 0 <= r.value.month <= 11 && r.value.totalExpectedHours > 0.0
    ensures ValidateQuery(p).Success? ==>
      var q := ValidateQuery(p).value;
      r == Success(MonthlySummary(q, fetch(q)))
  {
    match ValidateQuery(p)
    case Failure(e) => Failure(e)
    case Success(q) =>
      MonthExpectedPositive(q.year, q.month);
      Success(MonthlySummary(q, fetch(q)))
  }

  // ---------------------------------------------------------------- breakdown

  /** One day of the daily breakdown. */
  datatype DayEntry = DayEntry(
    date: Date,
    expectedHours: real,
    workedHours: real,
    status: Status,
    inTime: Option<Clock>,
    outTime: Option<Clock>,
    isLeave: bool)

  /** The `recordsMap`: each stored record under its date, a later record replacing an earlier one. */
  function RecordsByDate(records: seq<StoredRecord>): map<Date, StoredRecord> {
    if records == [] then map[]
    else
      var last := records[|records| - 1];
      RecordsByDate(records[..|records| - 1])[last.date := last]
  }

  /** Every record in the index sits under its own date. */
  lemma {:induction false} RecordsByDateOwnDate(records: seq<StoredRecord>)
    ensures forall d :: d in RecordsByDate(records) ==> RecordsByDate(records)[d].date == d
  {
    if records != [] {
      RecordsByDateOwnDate(records[..|records| - 1]);
    }
  }

  /** `recordsMap.get(dateKey)` */
  function Lookup(byDate: map<Date, StoredRecord>, d: Date): Option<StoredRecord> {
    if d in byDate then Some(byDate[d]) else None
  }

  /** A date has an entry in the map exactly when some record has that date. */
  lemma {:induction false} RecordsByDateKeys(records: seq<StoredRecord>, d: Date)
    ensures d in RecordsByDate(records) <==> exists i :: 0 <= i < |records| && records[i].date == d
  {
    if records != [] {
      var init := records[..|records| - 1];
      RecordsByDateKeys(init, d);
      if exists i :: 0 <= i < |init| && init[i].date == d {
        var i :| 0 <= i < |init| && init[i].date == d;
        assert records[i].date == d;
      }
      if exists i :: 0 <= i < |records| && records[i].date == d {
        var i :| 0 <= i < |records| && records[i].date == d;
        if i < |init| {
          assert init[i].date == d;
        }
      }
    }
  }

  /** The map holds, for each date, the last record with that date. */
  lemma {:induction false} RecordsByDateLastWins(records: seq<StoredRecord>, i: nat)
    requires i < |records|
    requires forall j :: i < j < |records| ==> records[j].date != records[i].date
    ensures Lookup(RecordsByDate(records), records[i].date) == Some(records[i])
  {
    var n := |records| - 1;
    if i < n {
      var init := records[..n];
      assert forall j :: i < j < |init| ==> init[j] == records[j];
      RecordsByDateLastWins(init, i);
      assert init[i] == records[i];
    }
  }

  /** The `forEach` that fills `recordsMap`. */
  method IndexByDate(records: seq<StoredRecord>) returns (byDate: map<Date, StoredRecord>)
    ensures byDate == RecordsByDate(records)
    ensures forall d :: d in byDate ==> byDate[d].date == d
  {
    byDate := map[];
    for i := 0 to |records|
      invariant byDate == RecordsByDate(records[..i])
      invariant forall d :: d in byDate ==> byDate[d].date == d
    {
      assert records[..i + 1][..i] == records[..i];
      byDate := byDate[records[i].date := records[i]];
    }
    assert records[..|records|] == records;
  }

  /**
   * The entry of one day. With a stored record: holiday on a non-working
   * day, else leave when a time is missing, else the stored status
   * (present by default); the stored expected hours (the policy value when
   * absent), the stored worked hours rounded (0 when absent), the stored
   * times and the stored leave flag, not recomputed. Without one: no times,
   * no worked hours, the policy's expected hours, holiday on a non-working
   * day and leave on a working day.
   */
  function EntryFor(d: Date, existing: Option<StoredRecord>): (e: DayEntry)
    ensures e.date == d
    ensures !IsWorkingDay(d) ==> e.status == Holiday
    ensures existing.None? ==>
      && e.inTime.None? && e.outTime.None? && e.workedHours == 0.0
      && e.expectedHours == ExpectedHours(d)
      && e.status != Present
      && (e.status == Leave <==> IsWorkingDay(d))
      && e.isLeave == (e.status == Leave)
    ensures existing.Some? ==>
      && e.inTime == existing.value.inTime && e.outTime == existing.value.outTime
      && e.isLeave == existing.value.isLeave.GetOr(false)
      && e.expectedHours == existing.value.expectedHours.GetOr(ExpectedHours(d))
      && (IsWorkingDay(d) && (e.inTime.None? || e.outTime.None?) ==> e.status == Leave)
      && (IsWorkingDay(d) && e.inTime.Some? && e.outTime.Some? ==>
            e.status == existing.value.status.GetOr(Present))
      && (existing.value.workedHours.None? ==> e.workedHours == 0.0)
      && (existing.value.workedHours.Some? ==>
            e.workedHours == RoundHundredths(existing.value.workedHours.value))
  {
    var expectedHours := ExpectedHours(d);
    match existing
    case Some(rec) =>
      var workedHours := match rec.workedHours case Some(w) => RoundHundredths(w) case None => 0.0;
      var status :=
        if !IsWorkingDay(d) then Holiday
        else if IsLeave(rec.inTime, rec.outTime, d) then Leave
        else rec.status.GetOr(Present);
      DayEntry(d, rec.expectedHours.GetOr(expectedHours), workedHours, status,
        rec.inTime, rec.outTime, rec.isLeave.GetOr(false))
    case None =>
      var isWorking := IsWorkingDay(d);
      var leaveStatus := isWorking && expectedHours > 0.0;
      DayEntry(d, expectedHours, 0.0,
        if !isWorking then Holiday else if leaveStatus then Leave else Present,
        None, None, leaveStatus)
  }

  /** The date of day `i + 1` of the month, as the walk reaches it. */
  function DayOfMonth(year: int, month: int, i: nat): Date {
    Date(LocalYear(year), month, i + 1)
  }

  /**
   * The daily breakdown: walk from the first of the month while the date
   * is not after the month's last day, one entry per day. The result has
   * one entry per calendar day of the month, in strictly ascending date
   * order, each entry built from the last stored record of its date.
   */
  method DailyBreakdown(year: int, month: int, records: seq<StoredRecord>) returns (entries: seq<DayEntry>)
    requires 0 <= month < 12
    ensures |entries| == DaysInMonth(LocalYear(year), month)
    ensures forall i :: 0 <= i < |entries| ==>
      entries[i] == EntryFor(DayOfMonth(year, month, i), Lookup(RecordsByDate(records), DayOfMonth(year, month, i)))
    ensures forall i :: 0 <= i < |entries| ==> ValidDate(entries[i].date)
    ensures forall i, j :: 0 <= i < j < |entries| ==> Before(entries[i].date, entries[j].date)
  {
    var byDate := IndexByDate(records);
    var startDate := FirstOfMonth(year, month);
    var endDate := LastOfMonth(year, month);
    var days := endDate.day;
    var currentDate := startDate;
    entries := [];
    while !Before(endDate, currentDate)
      invariant |entries| <= days
      invariant currentDate == if |entries| < days then DayOfMonth(year, month, |entries|) else NextDay(endDate)
      invariant forall i :: 0 <= i < |entries| ==>
        entries[i] == EntryFor(DayOfMonth(year, month, i), Lookup(byDate, DayOfMonth(year, month, i)))
      decreases days - |entries|
    {
      entries := entries + [EntryFor(currentDate, Lookup(byDate, currentDate))];
      currentDate := NextDay(currentDate);
    }
  }

  /**
   * The breakdown handler: validation first, without the store; then the
   * walk over the month of a valid query.
   */
  method DailyBreakdownResponse(p: QueryParams, fetch: Query -> seq<StoredRecord>)
    returns (r: Result<seq<DayEntry>, QueryError>)
    ensures ValidateQuery(p).Failure? ==> r == Failure(ValidateQuery(p).error)
    ensures ValidateQuery(p).Success? ==> (
      var q := ValidateQuery(p).value;
      && r.Success?
      && |r.value| == DaysInMonth(LocalYear(q.year), q.month)
      && forall i :: 0 <= i < |r.value| ==>
           r.value[i] == EntryFor(DayOfMonth(q.year, q.month, i), Lookup(RecordsByDate(fetch(q)), DayOfMonth(q.year, q.month, i))))
  {
    var v := ValidateQuery(p);
    if v.Failure? {
      return Failure(v.error);
    }
    var entries := DailyBreakdown(v.value.year, v.value.month, fetch(v.value));
    return Success(entries);
  }

  /**
   * Every stored record of the month shows up in the breakdown: the entry
   * of its day is built from it, unless a later record has the same date.
   */
  lemma {:induction false} StoredRecordInBreakdown(year: int, month: int, records: seq<StoredRecord>, entries: seq<DayEntry>, i: nat)
    requires 0 <= month < 12
    requires |entries| == DaysInMonth(LocalYear(year), month)
    requires forall k :: 0 <= k < |entries| ==>
      entries[k] == EntryFor(DayOfMonth(year, month, k), Lookup(RecordsByDate(records), DayOfMonth(year, month, k)))
    requires i < |records| && ValidDate(records[i].date)
    requires records[i].date.year == LocalYear(year) && records[i].date.month == month
    requires forall j :: i < j < |records| ==> records[j].date != records[i].date
    ensures entries[records[i].date.day - 1] == EntryFor(records[i].date, Some(records[i]))
  {
    var d := records[i].date;
    var k := d.day - 1;
    assert DayOfMonth(year, month, k) == d;
    RecordsByDateLastWins(records, i);
    assert Lookup(RecordsByDate(records), d) == Some(records[i]);
  }
}
