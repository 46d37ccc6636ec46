/**
 * The attendance records: the canonical record the spreadsheet parser
 * produces for one accepted row, and the document the store keeps for
 * one (employeeName, date) pair.
 */
module Records {
  import opened Wrappers
  import opened Calendar
  import opened Times
  import opened BusinessRules

  /** The three values of `status`. */
  datatype Status = Present | Leave | Holiday

  /** One normalized row: every derived field comes from the policy, never from the sheet. */
  datatype AttendanceRecord = AttendanceRecord(
    employeeName: string,
    date: Date,
    inTime: Option<Clock>,
    outTime: Option<Clock>,
    expectedHours: real,
    workedHours: real,
    isLeave: bool,
    status: Status)

  /**
   * A stored attendance document. The fields the report code reads
   * defensively (`|| 0`, `|| 'present'`, `|| false`, `typeof ... === 'number'`)
   * are options.
   */
  datatype StoredRecord = StoredRecord(
    employeeName: string,
    date: Date,
    inTime: Option<Clock>,
    outTime: Option<Clock>,
    expectedHours: Option<real>,
    workedHours: Option<real>,
    status: Option<Status>,
    isLeave: Option<bool>)

  /**
   * The invariants of a canonical record: expected and worked hours from
   * the policy, holiday exactly on non-working days, leave exactly on a
   * working day with a missing time, and `isLeave` agreeing with `status`.
   */
  predicate Canonical(r: AttendanceRecord) {
    && r.employeeName != []
    && r.expectedHours == ExpectedHours(r.date)
    && r.workedHours == WorkedHours(r.inTime, r.outTime)
    && (r.status == Holiday <==> !IsWorkingDay(r.date))
    && (r.status == Leave <==> IsWorkingDay(r.date) && (r.inTime.None? || r.outTime.None?))
    && (r.isLeave <==> r.status == Leave)
  }
}
