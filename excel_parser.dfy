/**
 * The spreadsheet row normalizer and time parser (excelParser.js).
 *
 * Reading the workbook is outside the model: the decoder hands over the
 * first sheet as a sequence of rows, each row its cells in column order
 * with the header as key and, as text, `String(value || '')`. Two more
 * library readings are parameters: `parseDate` (a date serial or a date
 * string to a calendar date, or nothing when the date is invalid) and
 * `daySeconds` (for a text JavaScript reads as a number, the day fraction
 * it denotes as `Math.round(value * 24 * 60 * 60)` seconds).
 */
module ExcelParser {
  import opened Wrappers
  import opened Strings
  import opened Calendar
  import opened Times
  import opened BusinessRules
  import opened Records

  /** One cell of a decoded row: its column header and the text of its value. */
  datatype Cell = Cell(header: string, text: string)

  /** A decoded row, its cells in column order. */
  type Row = seq<Cell>

  datatype ParseError = EmptySheet | ColumnsNotFound

  /** `String(row[header] || '')`: the empty text when the row has no such cell. */
  function CellText(row: Row, header: string): string {
    if row == [] then ""
    else if row[0].header == header then row[0].text
    else CellText(row[1..], header)
  }

  /** A row without a cell under `header` reads as the empty text. */
  lemma {:induction false} CellTextAbsent(row: Row, header: string)
    requires forall i :: 0 <= i < |row| ==> row[i].header != header
    ensures CellText(row, header) == ""
  {
    if row != [] {
      CellTextAbsent(row[1..], header);
    }
  }

  /** Otherwise it reads as the text of the first cell under `header`. */
  lemma {:induction false} CellTextFirst(row: Row, header: string, i: nat)
    requires i < |row| && row[i].header == header
    requires forall j :: 0 <= j < i ==> row[j].header != header
    ensures CellText(row, header) == row[i].text
  {
    if i > 0 {
      CellTextFirst(row[1..], header, i - 1);
    }
  }

  /** `Object.keys(row)` */
  function Headers(row: Row): (hs: seq<string>)
    ensures |hs| == |row|
    ensures forall i :: 0 <= i < |row| ==> hs[i] == row[i].header
  {
    seq(|row|, i requires 0 <= i < |row| => row[i].header)
  }

  // ---------------------------------------------------------------- columns

  /** The four logical columns the normalizer needs. */
  datatype Role = EmployeeColumn | DateColumn | InTimeColumn | OutTimeColumn

  /** The header tests, on the lower-cased header. */
  predicate Matches(role: Role, header: string) {
    var h := ToLower(header);
    match role
    case EmployeeColumn => Contains(h, "employee") || Contains(h, "name") || Contains(h, "id")
    case DateColumn => Contains(h, "date")
    case InTimeColumn => Contains(h, "in") && (Contains(h, "time") || Contains(h, "in-time"))
    case OutTimeColumn => Contains(h, "out") && (Contains(h, "time") || Contains(h, "out-time"))
  }

  /** The tests ignore case: a header passes exactly when its lower-cased form does. */
  lemma MatchesIgnoresCase(role: Role, header: string)
    ensures Matches(role, header) <==> Matches(role, ToLower(header))
  {
    ToLowerIdempotent(header);
  }

  /** The second alternative of each time-column test adds nothing: "in-time" contains "time". */
  lemma TimeColumnTests(header: string)
    ensures Matches(InTimeColumn, header) <==> Contains(ToLower(header), "in") && Contains(ToLower(header), "time")
    ensures Matches(OutTimeColumn, header) <==> Contains(ToLower(header), "out") && Contains(ToLower(header), "time")
  {
    var h := ToLower(header);
    if Contains(h, "in-time") {
      assert "in-" + "time" == "in-time";
      ContainsSuffix(h, "in-", "time");
    }
    if Contains(h, "out-time") {
      assert "out-" + "time" == "out-time";
      ContainsSuffix(h, "out-", "time");
    }
  }

  /** The index of the first header that passes the test for `role`, or `|headers|`. */
  function FirstMatch(headers: seq<string>, role: Role): (i: nat)
    ensures i <= |headers|
    ensures i < |headers| ==> Matches(role, headers[i])
    ensures forall j :: 0 <= j < i ==> !Matches(role, headers[j])
  {
    if headers == [] then 0
    else if Matches(role, headers[0]) then 0
    else 1 + FirstMatch(headers[1..], role)
  }

  /** No header passes the test for `role`. */
  predicate NoMatch(headers: seq<string>, role: Role) {
    forall j :: 0 <= j < |headers| ==> !Matches(role, headers[j])
  }

  /** `header` is the first of `headers` that passes the test for `role`. */
  predicate IsFirstMatch(headers: seq<string>, role: Role, header: string) {
    exists i :: 0 <= i < |headers| && headers[i] == header && Matches(role, header) &&
      forall j :: 0 <= j < i ==> !Matches(role, headers[j])
  }

  /** `columns.find(test)` */
  function FindColumn(headers: seq<string>, role: Role): (r: Option<string>)
    ensures r.None? <==> NoMatch(headers, role)
    ensures r.Some? ==> IsFirstMatch(headers, role, r.value)
  {
    var i := FirstMatch(headers, role);
    if i < |headers| then Some(headers[i]) else None
  }

  /** The columns of the four roles in a row's header order. */
  datatype Columns = Columns(employee: string, date: string, inTime: string, outTime: string)

  /** Resolve every role to its first matching header; fail if any role has none. */
  function ResolveColumns(headers: seq<string>): (r: Option<Columns>)
    ensures r.None? <==>
      || NoMatch(headers, EmployeeColumn) || NoMatch(headers, DateColumn)
      || NoMatch(headers, InTimeColumn) || NoMatch(headers, OutTimeColumn)
    ensures r.Some? ==>
      && IsFirstMatch(headers, EmployeeColumn, r.value.employee)
      && IsFirstMatch(headers, DateColumn, r.value.date)
      && IsFirstMatch(headers, InTimeColumn, r.value.inTime)
      && IsFirstMatch(headers, OutTimeColumn, r.value.outTime)
  {
    var employee := FindColumn(headers, EmployeeColumn);
    var date := FindColumn(headers, DateColumn);
    var inTime := FindColumn(headers, InTimeColumn);
    var outTime := FindColumn(headers, OutTimeColumn);
    if employee.None? || date.None? || inTime.None? || outTime.None? then None
    else Some(Columns(employee.value, date.value, inTime.value, outTime.value))
  }

  // ---------------------------------------------------------------- times

  /**
   * The match of `/(\d{1,2}):(\d{2})(?::(\d{2}))?/` that starts at index
   * `i`, trying a two-digit hour before a one-digit one; the optional
   * seconds never change the hours and minutes it yields.
   */
  function MatchAt(s: string, i: nat): (r: Option<Clock>)
    ensures r.Some? ==> r.value.hours < 100 && r.value.minutes < 100
  {
    if i + 5 <= |s| && IsDigit(s[i]) && IsDigit(s[i + 1]) && s[i + 2] == ':'
       && IsDigit(s[i + 3]) && IsDigit(s[i + 4])
    then Some(Clock(DigitValue(s[i]) * 10 + DigitValue(s[i + 1]), DigitValue(s[i + 3]) * 10 + DigitValue(s[i + 4])))
    else if i + 4 <= |s| && IsDigit(s[i]) && s[i + 1] == ':' && IsDigit(s[i + 2]) && IsDigit(s[i + 3])
    then Some(Clock(DigitValue(s[i]), DigitValue(s[i + 2]) * 10 + DigitValue(s[i + 3])))
    else None
  }

  /** The leftmost index from `i` on where the pattern matches, or `|s|`. */
  function FirstMatchFrom(s: string, i: nat): (j: nat)
    requires i <= |s|
    ensures i <= j <= |s|
    ensures j < |s| ==> MatchAt(s, j).Some?
    ensures forall k :: i <= k < j ==> MatchAt(s, k).None?
    decreases |s| - i
  {
    if i == |s| then i
    else if MatchAt(s, i).Some? then i
    else FirstMatchFrom(s, i + 1)
  }

  /** Whole hours and whole minutes of `seconds`, the leftover seconds dropped. */
  predicate TruncatesTo(seconds: nat, c: Clock) {
    c.minutes < 60 && c.hours * 3600 + c.minutes * 60 <= seconds < c.hours * 3600 + c.minutes * 60 + 60
  }

  /** `Math.floor(totalSeconds / 3600)` hours and `Math.floor((totalSeconds % 3600) / 60)` minutes. */
  function ClockOfSeconds(totalSeconds: nat): (c: Clock)
    ensures TruncatesTo(totalSeconds, c)
    ensures totalSeconds < 86400 ==> IsCanonical(c)
  {
    Clock(totalSeconds / 3600, (totalSeconds % 3600) / 60)
  }

  /**
   * `parseTimeString(s)`: nothing for an empty text; a text JavaScript
   * reads as a number is a day fraction (`asNumber` holds its rounded
   * seconds); any other text yields the hours and minutes of the first
   * `H:MM` or `HH:MM` in it, or nothing when there is none.
   */
  function ParseTimeString(s: string, asNumber: Option<nat>): (r: Option<Clock>)
    ensures s == [] ==> r.None?
    ensures s != [] && asNumber.Some? ==> r.Some? && TruncatesTo(asNumber.value, r.value)
    ensures s != [] && asNumber.None? ==> (r.None? <==> forall k :: 0 <= k < |s| ==> MatchAt(s, k).None?)
    ensures s != [] && asNumber.None? && r.Some? ==>
      r.value.hours < 100 && r.value.minutes < 100 &&
      exists j :: 0 <= j < |s| && MatchAt(s, j) == r && forall k :: 0 <= k < j ==> MatchAt(s, k).None?
  {
    if s == [] then None
    else if asNumber.Some? then Some(ClockOfSeconds(asNumber.value))
    else
      var j := FirstMatchFrom(s, 0);
      if j < |s| then MatchAt(s, j) else None
  }

  /** Two two-digit fields around a colon match at the start with those numbers. */
  lemma MatchTwoDigitFields(h: nat, m: nat)
    requires h < 100 && m < 100
    ensures MatchAt([DigitChar(h / 10), DigitChar(h % 10), ':', DigitChar(m / 10), DigitChar(m % 10)], 0)
      == Some(Clock(h, m))
  {
  }

  /** The parser reads its own output back: a formatted time is a fixed point. */
  lemma ParseFormattedTime(c: Clock)
    requires c.hours < 100 && c.minutes < 100
    ensures ParseTimeString(Format(c), None) == Some(c)
  {
    var s := Format(c);
    assert MatchAt(s, 0) == Some(c) by {
      FormatFields(c);
      MatchTwoDigitFields(c.hours, c.minutes);
    }
    assert s != [] && FirstMatchFrom(s, 0) == 0;
  }

  /**
   * Single-digit minutes do not match; the first two fields of a longer
   * time are read; a run of three digits is read from its last two; the
   * fields are not range-checked; a number is read as a day fraction.
   */
  lemma ParseTimeStringExamples()
    ensures ParseTimeString("9:5", None) == None
    ensures ParseTimeString("9:05", None) == Some(Clock(9, 5))
    ensures ParseTimeString("10:30:45", None) == Some(Clock(10, 30))
    ensures ParseTimeString("123:45", None) == Some(Clock(23, 45))
    ensures ParseTimeString("7:99", None) == Some(Clock(7, 99))
    ensures ParseTimeString("0.5", Some(43200)) == Some(Clock(12, 0))
    ensures ParseTimeString("0.75", Some(64800)) == Some(Clock(18, 0))
  {
    assert MatchAt("9:5", 0).None? && MatchAt("9:5", 1).None? && MatchAt("9:5", 2).None?;
    assert MatchAt("9:05", 0) == Some(Clock(9, 5));
    assert MatchAt("10:30:45", 0) == Some(Clock(10, 30));
    assert MatchAt("123:45", 0).None?;
    assert MatchAt("123:45", 1) == Some(Clock(23, 45));
    assert MatchAt("7:99", 0) == Some(Clock(7, 99));
  }

  // ---------------------------------------------------------------- rows

  /** The values `f` yields on `xs`, in order, dropping the misses. */
  function Keep<T, U>(xs: seq<T>, f: T -> Option<U>): seq<U> {
    if xs == [] then []
    else
      var init := Keep(xs[..|xs| - 1], f);
      match f(xs[|xs| - 1])
      case Some(y) => init + [y]
      case None => init
  }

  /** The indices of `xs` on which `f` yields a value, in order. */
  function Kept<T, U>(xs: seq<T>, f: T -> Option<U>): seq<nat> {
    if xs == [] then []
    else
      var init := Kept(xs[..|xs| - 1], f);
      if f(xs[|xs| - 1]).Some? then init + [|xs| - 1] else init
  }

  lemma {:induction false} KeepIsOrderedSelection<T, U>(xs: seq<T>, f: T -> Option<U>)
    ensures
      var out := Keep(xs, f);
      var idx := Kept(xs, f);
      && |idx| == |out|
      && (forall k :: 0 <= k < |idx| ==> idx[k] < |xs|)
      && (forall k, l :: 0 <= k < l < |idx| ==> idx[k] < idx[l])
      && (forall k :: 0 <= k < |idx| ==> f(xs[idx[k]]) == Some(out[k]))
  {
    if xs != [] {
      var n := |xs| - 1;
      var init := xs[..n];
      KeepIsOrderedSelection(init, f);
      assert forall k :: 0 <= k < |Kept(init, f)| ==> xs[Kept(init, f)[k]] == init[Kept(init, f)[k]];
    }
  }

  lemma {:induction false} KeptBelow<T, U>(xs: seq<T>, f: T -> Option<U>)
    ensures forall k :: k in Kept(xs, f) ==> k < |xs|
  {
    if xs != [] {
      KeptBelow(xs[..|xs| - 1], f);
    }
  }

  /** An index is kept exactly when `f` yields a value there. */
  lemma {:induction false} KeptComplete<T, U>(xs: seq<T>, f: T -> Option<U>, j: nat)
    requires j < |xs|
    ensures j in Kept(xs, f) <==> f(xs[j]).Some?
  {
    var n := |xs| - 1;
    var init := xs[..n];
    KeptBelow(init, f);
    if j < n {
      KeptComplete(init, f, j);
      assert init[j] == xs[j];
    }
  }

  /** The status a normalized record gets: holiday first, then leave, else present. */
  function DeriveStatus(date: Date, leave: bool): (s: Status)
    ensures s == Holiday <==> ExpectedHours(date) == 0.0
    ensures s == Leave <==> ExpectedHours(date) > 0.0 && leave
    ensures s == Present <==> ExpectedHours(date) > 0.0 && !leave
  {
    if !IsWorkingDay(date) then Holiday
    else if leave then Leave
    else Present
  }

  /** The record for an accepted row, every derived field taken from the policy. */
  function Normalize(employeeName: string, date: Date, inTime: Option<Clock>, outTime: Option<Clock>): (r: AttendanceRecord)
    requires employeeName != []
    ensures Canonical(r)
    ensures r.employeeName == employeeName && r.date == date && r.inTime == inTime && r.outTime == outTime
  {
    var leave := IsLeave(inTime, outTime, date);
    AttendanceRecord(employeeName, date, inTime, outTime,
      ExpectedHours(date), WorkedHours(inTime, outTime), leave, DeriveStatus(date, leave))
  }

  /**
   * The time in a time cell: a blank trimmed text is no time; a trimmed
   * text the sheet reads as a number is that day fraction's clock; any
   * other text gives the leftmost `H:MM` match, or no time when none matches.
   */
  function TimeOfCell(text: string, daySeconds: string -> Option<nat>): (r: Option<Clock>)
    ensures Trim(text) == [] ==> r.None?
    ensures Trim(text) != [] && daySeconds(Trim(text)).Some? ==>
      r.Some? && TruncatesTo(daySeconds(Trim(text)).value, r.value)
    ensures Trim(text) != [] && daySeconds(Trim(text)).None? ==>
      (r.None? <==> forall k :: 0 <= k < |Trim(text)| ==> MatchAt(Trim(text), k).None?)
    ensures Trim(text) != [] && daySeconds(Trim(text)).None? && r.Some? ==>
      exists j :: 0 <= j < |Trim(text)| && MatchAt(Trim(text), j) == r &&
        forall k :: 0 <= k < j ==> MatchAt(Trim(text), k).None?
  {
    var t := Trim(text);
    if t == [] then None else ParseTimeString(t, daySeconds(t))
  }

  /** A formatted time has no white space to trim. */
  lemma TrimFormat(c: Clock)
    requires c.hours < 100 && c.minutes < 100
    ensures Trim(Format(c)) == Format(c)
  {
    FormatFields(c);
    TrimDigitEnds(Format(c));
  }

  /** A cell holding a formatted time, which is not a number, reads back as that time. */
  lemma TimeOfFormattedCell(c: Clock, daySeconds: string -> Option<nat>)
    requires c.hours < 100 && c.minutes < 100
    requires daySeconds(Format(c)).None?
    ensures TimeOfCell(Format(c), daySeconds) == Some(c)
  {
    TrimFormat(c);
    ParseFormattedTime(c);
  }

  /**
   * One row of the loop: skipped (nothing) when the trimmed employee or
   * date text is blank or the date does not parse, else its record.
   */
  function NormalizeRow(row: Row, cols: Columns, parseDate: string -> Option<Date>, daySeconds: string -> Option<nat>)
    : (r: Option<AttendanceRecord>)
    ensures r.None? <==>
      || Trim(CellText(row, cols.employee)) == []
      || Trim(CellText(row, cols.date)) == []
      || parseDate(Trim(CellText(row, cols.date))).None?
    ensures r.Some? ==> Canonical(r.value) && r.value.employeeName == Trim(CellText(row, cols.employee))
    ensures r.Some? ==> r.value.date == parseDate(Trim(CellText(row, cols.date))).value
  {
    var employeeName := Trim(CellText(row, cols.employee));
    var dateText := Trim(CellText(row, cols.date));
    if employeeName == [] || dateText == [] then None
    else match parseDate(dateText)
      case None => None
      case Some(date) =>
        Some(Normalize(employeeName, date,
          TimeOfCell(CellText(row, cols.inTime), daySeconds),
          TimeOfCell(CellText(row, cols.outTime), daySeconds)))
  }

  /** The records of the accepted rows, in row order. */
  function NormalizeRows(rows: seq<Row>, cols: Columns, parseDate: string -> Option<Date>, daySeconds: string -> Option<nat>)
    : (out: seq<AttendanceRecord>)
    ensures |out| <= |rows|
    ensures forall k :: 0 <= k < |out| ==> Canonical(out[k])
  {
    if rows == [] then []
    else
      var init := NormalizeRows(rows[..|rows| - 1], cols, parseDate, daySeconds);
      match NormalizeRow(rows[|rows| - 1], cols, parseDate, daySeconds)
      case Some(r) => init + [r]
      case None => init
  }

  /** An accepted row's record is built from its trimmed name, its parsed date and its two time cells. */
  lemma NormalizeRowAccepted(row: Row, cols: Columns, parseDate: string -> Option<Date>, daySeconds: string -> Option<nat>)
    requires Trim(CellText(row, cols.employee)) != [] && Trim(CellText(row, cols.date)) != []
    requires parseDate(Trim(CellText(row, cols.date))).Some?
    ensures NormalizeRow(row, cols, parseDate, daySeconds) == Some(Normalize(
      Trim(CellText(row, cols.employee)), parseDate(Trim(CellText(row, cols.date))).value,
      TimeOfCell(CellText(row, cols.inTime), daySeconds), TimeOfCell(CellText(row, cols.outTime), daySeconds)))
  {
  }

  /** One more row adds its record, if it has one, at the end. */
  lemma NormalizeRowsStep(
    rows: seq<Row>, i: nat, cols: Columns, parseDate: string -> Option<Date>, daySeconds: string -> Option<nat>)
    requires i < |rows|
    ensures NormalizeRows(rows[..i + 1], cols, parseDate, daySeconds) ==
      match NormalizeRow(rows[i], cols, parseDate, daySeconds)
      case Some(r) => NormalizeRows(rows[..i], cols, parseDate, daySeconds) + [r]
      case None => NormalizeRows(rows[..i], cols, parseDate, daySeconds)
  {
    assert rows[..i + 1][..i] == rows[..i];
  }

  /** The rows' normalizer as a function value. */
  function RowNormalizer(cols: Columns, parseDate: string -> Option<Date>, daySeconds: string -> Option<nat>)
    : Row -> Option<AttendanceRecord>
  {
    row => NormalizeRow(row, cols, parseDate, daySeconds)
  }

  /** Normalizing the rows is keeping the rows' records. */
  lemma {:induction false} NormalizeRowsIsKeep(
    rows: seq<Row>, cols: Columns, parseDate: string -> Option<Date>, daySeconds: string -> Option<nat>)
    ensures NormalizeRows(rows, cols, parseDate, daySeconds) == Keep(rows, RowNormalizer(cols, parseDate, daySeconds))
  {
    if rows != [] {
      NormalizeRowsIsKeep(rows[..|rows| - 1], cols, parseDate, daySeconds);
    }
  }

  /**
   * The output is exactly the accepted rows' records in input order: the
   * k-th record comes from the k-th accepted row, the accepted rows are
   * in strictly increasing order, and a row is accepted iff it yields a
   * record.
   */
  lemma NormalizeRowsIsOrderedSelection(
    rows: seq<Row>, cols: Columns, parseDate: string -> Option<Date>, daySeconds: string -> Option<nat>)
    ensures
      var out := NormalizeRows(rows, cols, parseDate, daySeconds);
      var idx := Kept(rows, RowNormalizer(cols, parseDate, daySeconds));
      && |idx| == |out|
      && (forall k :: 0 <= k < |idx| ==> idx[k] < |rows|)
      && (forall k, l :: 0 <= k < l < |idx| ==> idx[k] < idx[l])
      && (forall k :: 0 <= k < |idx| ==> NormalizeRow(rows[idx[k]], cols, parseDate, daySeconds) == Some(out[k]))
      && (forall j :: 0 <= j < |rows| ==> (j in idx <==> NormalizeRow(rows[j], cols, parseDate, daySeconds).Some?))
  {
    var f := RowNormalizer(cols, parseDate, daySeconds);
    NormalizeRowsIsKeep(rows, cols, parseDate, daySeconds);
    KeepIsOrderedSelection(rows, f);
    forall j | 0 <= j < |rows|
      ensures j in Kept(rows, f) <==> NormalizeRow(rows[j], cols, parseDate, daySeconds).Some?
    {
      KeptComplete(rows, f, j);
    }
  }

  /**
   * What `parseExcelFile` returns after decoding: an empty sheet and a
   * missing column abort the parse; otherwise the records of the accepted
   * rows, in order, each one canonical.
   */
  function ParseExcel(rows: seq<Row>, parseDate: string -> Option<Date>, daySeconds: string -> Option<nat>)
    : (r: Result<seq<AttendanceRecord>, ParseError>)
    ensures r == Failure(EmptySheet) <==> rows == []
    ensures r == Failure(ColumnsNotFound) <==> rows != [] && ResolveColumns(Headers(rows[0])).None?
    ensures r.Success? ==>
      && |r.value| <= |rows|
      && forall k :: 0 <= k < |r.value| ==> Canonical(r.value[k])
  {
    if rows == [] then Failure(EmptySheet)
    else match ResolveColumns(Headers(rows[0]))
      case None => Failure(ColumnsNotFound)
      case Some(cols) => Success(NormalizeRows(rows, cols, parseDate, daySeconds))
  }

  /**
   * `parseExcelFile` after decoding: the loop over the rows, skipping a
   * row and going on with the next one when its name or date is blank or
   * its date does not parse.
   */
  method ParseExcelRows(rows: seq<Row>, parseDate: string -> Option<Date>, daySeconds: string -> Option<nat>)
    returns (result: Result<seq<AttendanceRecord>, ParseError>)
    ensures result == ParseExcel(rows, parseDate, daySeconds)
  {
    if |rows| == 0 {
      return Failure(EmptySheet);
    }
    var columns := ResolveColumns(Headers(rows[0]));
    if columns.None? {
      return Failure(ColumnsNotFound);
    }
    var cols := columns.value;
    var records: seq<AttendanceRecord> := [];
    for i := 0 to |rows|
      invariant records == NormalizeRows(rows[..i], cols, parseDate, daySeconds)
    {
      NormalizeRowsStep(rows, i, cols, parseDate, daySeconds);
      var row := rows[i];
      var employeeName := Trim(CellText(row, cols.employee));
      var dateText := Trim(CellText(row, cols.date));
      if employeeName == [] || dateText == [] {
        continue;
      }
      var date := parseDate(dateText);
      if date.None? {
        continue;
      }
      var inTime := TimeOfCell(CellText(row, cols.inTime), daySeconds);
      var outTime := TimeOfCell(CellText(row, cols.outTime), daySeconds);
      var record := Normalize(employeeName, date.value, inTime, outTime);
      NormalizeRowAccepted(row, cols, parseDate, daySeconds);
      records := records + [record];
    }
    assert rows[..|rows|] == rows;
    assert ParseExcel(rows, parseDate, daySeconds) == Success(NormalizeRows(rows, cols, parseDate, daySeconds));
    return Success(records);
  }
}
