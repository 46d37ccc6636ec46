# Leave & Productivity Analyzer — attendance derivation engine in Dafny

This project models the attendance derivation engine of the Leave &
Productivity Analyzer and proves properties about it. The engine reads
attendance rows from a spreadsheet and normalizes them into canonical
records. Expected hours, worked hours, status and leave flag are all
derived from a fixed calendar policy:

- Sunday is off (0 hours).
- Saturday is 4 hours.
- Monday to Friday is 8.5 hours.
- A working day with a missing in- or out-time is a leave.

The records are upserted into a store keyed by (employee, date). The
engine then reports two things for one employee and month. The first is
a monthly summary: expected and actual hours, leaves used and
productivity. The second is a daily breakdown of every calendar day,
which merges stored records with entries made up for the days that have
no record.

Modules, one per file:

- `Wrappers`: `Option` and `Result`.
- `Strings`: the JavaScript string built-ins the engine uses:
  - `trim`, ASCII `toLowerCase`, `includes`;
  - `String(n)`, `padStart(2, '0')`, `parseInt(_, 10)`.
- `Calendar`: dates with 0-indexed months, as JavaScript's `Date` handles them at local midnight:
  - the Gregorian leap rule and `getDay()` through a weekday formula;
  - `setDate(getDate() + 1)`;
  - `new Date(y, m, 1)`, with its two-digit-year rule and its carrying of out-of-range months.
- `Times`: a time of day as the pair (hours, minutes). It has the `HH:MM` text the parser writes and the `split(':').map(Number)` that reads it back.
- `BusinessRules`: the calendar policy. It covers expected hours, working days, worked hours with the overnight wrap and rounding to hundredths, the leave test, and the month-total walk.
- `Records`: the canonical record and the stored document.
- `ExcelParser`:
  - first-match column resolution over the header keys;
  - `parseTimeString`;
  - the row loop, which skips a row and continues.
- `AttendanceRoutes`:
  - query validation;
  - the monthly summary;
  - the daily-breakdown reconciler: a by-date index of the stored records, then a walk over the month's days.
- `UploadRoute`: the batch upsert into the keyed store. A sheet that yields no record is rejected, and a failing write aborts the rest of the batch.

Numbers are exact. Hours are `real`. `Math.round(x * 100) / 100` is
round-half-up to hundredths: `floor(100x + 1/2) / 100`. Times are whole
hours and minutes. Dafny's `/` and `%` on integers with a positive
divisor agree with `Math.floor` of the division, which is what the
source computes.

The spreadsheet decoder and the date parser are parameters:

- the rows come in as sequences of (header, text) cells;
- `parseDate: string -> Option<Date>` stands for the date parsing;
- `daySeconds: string -> Option<nat>` stands for the numeric reading of a time cell (`isNaN`, `parseFloat`, `Math.round(v * 86400)`).

The database is a map from (employeeName, date) to the stored document,
held in an `AttendanceStore` object whose methods update it. A write
failure is a parameter that names the index of the failing write. The
report handlers take the query result, the stored records of the month,
as a parameter.

Time fields are not range-checked. The parser accepts `7:99`, and the
numeric branch accepts day fractions of 1 or more. From such times the
worked-hours calculation can produce negative hours. The model keeps
this behaviour, and `BusinessRules.WorkedHoursOutOfRangeIsNegative`
exhibits it: `30:00` to `01:00` gives -5 hours.

## Model

| member | source | states |
|---|---|---|
| Calendar.DaysInMonth | backend/utils/businessRules.js:116-119 | a month has 28 to 31 days; February has 29 exactly in a Gregorian leap year |
| Calendar.DayOfWeek | backend/utils/businessRules.js:23 | `getDay()` is in 0..6 |
| Calendar.NextDay | backend/utils/businessRules.js:118 | stepping one day gives a valid date strictly after the old one |
| Calendar.NextDayWeekday | backend/utils/businessRules.js:116-119 | one day later the weekday is one more, modulo 7, across month and year ends |
| Calendar.YearShiftStep | backend/utils/businessRules.js:23 | the weekday offset of a year advances by 2 after a leap year and by 1 otherwise |
| Calendar.FirstOfMonth | backend/utils/businessRules.js:112 | `new Date(year, month, 1)` is a valid first of a month; it lies in `month` exactly when 0 <= month < 12, and then in the year with the two-digit-year rule applied |
| Calendar.LocalYear | backend/utils/businessRules.js:112 | the two-digit-year rule: the full year is never in 0..99, and it differs from the given year only for a year in 0..99, which is moved to 1900 onwards |
| Calendar.LastOfMonth | backend/routes/attendance.js:33 | `new Date(y, m + 1, 0)` is the last valid day of month m; the next day leaves the month |
| Strings.Trim | backend/utils/excelParser.js:64-67 | the trimmed text is the slice of the input that starts after its leading white space; everything before and after that slice is white space, and the slice neither starts nor ends with white space |
| Strings.TrimUnchanged | backend/utils/excelParser.js:64-67 | a text that neither starts nor ends with white space is its own trim |
| Strings.TrimDigitEnds | backend/utils/excelParser.js:66-67 | a text that begins and ends with a digit is its own trim |
| Strings.ToLower | backend/utils/excelParser.js:35-51 | lower-casing keeps the length and maps every character through `Lower`, position by position |
| Strings.Lower | backend/utils/excelParser.js:35-51 | no result is an upper-case ASCII letter; an upper-case letter moves 32 code points up to its lower-case form and every other character is kept |
| Strings.ContainsFound | backend/utils/excelParser.js:35-51 | when `s.includes(sub)` holds, `sub` occurs in `s` at some position `k` |
| Strings.ContainsIff | backend/utils/excelParser.js:35-51 | `s.includes(sub)` holds exactly when `sub` occurs in `s` at some position |
| Strings.ToLowerIdempotent | backend/utils/excelParser.js:35-51 | lower-casing twice is lower-casing once |
| Strings.Digits | backend/utils/excelParser.js:162 | `String(n)` is a non-empty run of digits; it is one digit exactly when n < 10 and two when 10 <= n < 100; it starts with `0` only for n = 0, so there are no leading zeros |
| Strings.PadStart | backend/utils/excelParser.js:162 | `padStart` gives the longer of the text's length and the width, with the text itself at the end |
| Strings.ValuePadStart | backend/utils/excelParser.js:162 | zero-padding does not change the number a digit string denotes |
| Strings.DigitPrefix | backend/routes/attendance.js:22-23 | the digits `parseInt` reads are the longest run of digits at the start of the text |
| Strings.ParseIntNaN | backend/routes/attendance.js:22-23 | `parseInt(s, 10)` is NaN exactly when no digit follows the leading white space and optional sign |
| Strings.DigitPrefixStops | backend/routes/attendance.js:22-23 | the digits read from a run of digits followed by a non-digit are exactly that run |
| Strings.ParseIntDigitsThen | backend/routes/attendance.js:22-23 | `parseInt` of a run of digits followed by anything that does not start with a digit is the number the run denotes |
| Strings.ParseIntSignedDigits | backend/routes/attendance.js:22-23 | a sign followed by a run of digits and a non-digit tail is that number, negated for `-` |
| Strings.ParseIntMinusDigits | backend/routes/attendance.js:22-23 | a leading `-` negates the number |
| Strings.ParseIntPlusDigits | backend/routes/attendance.js:22-23 | a leading `+` keeps the number as it is |
| Strings.ParseIntOfDigitString | backend/routes/attendance.js:22-23 | `parseInt` on a non-empty run of digits is the number they denote |
| Strings.ParseIntOfDigits | backend/routes/attendance.js:22-23 | `parseInt` reads back the decimal text of any non-negative integer |
| Times.Format | backend/utils/excelParser.js:162 | the `HH:MM` text has at least 5 characters |
| Times.FormatFields | backend/utils/excelParser.js:162 | when both fields are below 100 the text is exactly the two digits of the hours, a colon and the two digits of the minutes |
| Times.PadTwo | backend/utils/excelParser.js:162 | a number below 100 padded to width 2 is its tens digit and its units digit |
| Times.ColonIndex | backend/utils/businessRules.js:60-61 | `split(':')` cuts at the first colon, or nowhere when the text has none |
| Times.ReadClock | backend/utils/businessRules.js:60-61 | a text without a colon is no time; a time read has as hours the number of the non-empty digit field before the first colon |
| Times.ReadFields | backend/utils/businessRules.js:60-61 | two non-empty digit fields around a colon read as those two numbers |
| Times.ReadFormat | backend/utils/businessRules.js:60-61 | `split(':').map(Number)` on the text the parser writes gives back the same hours and minutes, for any values |
| BusinessRules.ExpectedHours | backend/utils/businessRules.js:22-35 | the value is 0, 4 or 8.5: 0 exactly on Sunday, 4 exactly on Saturday, 8.5 exactly Monday to Friday; it is positive exactly on working days |
| BusinessRules.IsWorkingDay | backend/utils/businessRules.js:42-45 | a working day is any day whose weekday is Monday to Saturday |
| BusinessRules.RoundHundredths | backend/utils/businessRules.js:76-77 | the result is within half a hundredth of the input and is a whole number of hundredths |
| BusinessRules.RoundHundredthsIdempotent | backend/utils/businessRules.js:76-77 | rounding an already rounded value changes nothing |
| BusinessRules.ElapsedMinutes | backend/utils/businessRules.js:64-73 | for canonical times the difference lies in [0, 1440) and equals (out - in) mod 1440; when in <= out it is out - in |
| BusinessRules.WorkedHours | backend/utils/businessRules.js:53-82 | 0 when either time is absent; otherwise the wrapped minute difference over 60, rounded to hundredths, and in [0, 24) for canonical times |
| BusinessRules.WorkedHoursExamples | backend/utils/businessRules.js:60-77 | 10:00 to 18:30 is 8.5, 22:00 to 06:00 is 8, equal times give 0, 10:00 to 14:00 is 4 |
| BusinessRules.WorkedHoursOutOfRangeIsNegative | backend/utils/businessRules.js:60-77 | an out-of-range in-time such as 30:00 to 01:00 gives -5 hours, because the wrap adds only one day |
| BusinessRules.IsLeave | backend/utils/businessRules.js:91-103 | leave exactly on a day with positive expected hours and a missing in- or out-time; a leave day has 0 worked hours and a day with both times is never leave |
| BusinessRules.LeaveIgnoresWorkedHours | backend/utils/businessRules.js:91-103 | never leave on a non-working day and never when both times are present; a leave day has 0 worked hours; equal times on a working day are 0 hours yet not leave |
| BusinessRules.TotalExpectedHoursForMonth | backend/utils/businessRules.js:111-122 | the walk returns the sum of the expected hours of every day of the month, and 0 for a month outside 0..11; it takes exactly as many steps as the month has days |
| BusinessRules.ExpectedThroughBounds | backend/utils/businessRules.js:111-122 | the sum over the first n days lies in [0, 8.5 n] |
| BusinessRules.MonthExpected | backend/utils/businessRules.js:111-122 | a month total lies in [0, 31 * 8.5], and is 0 for a month outside 0..11 |
| BusinessRules.ExpectedThroughByWeekday | backend/utils/businessRules.js:111-122 | the sum is 8.5 times the number of Monday-to-Friday days plus 4 times the number of Saturdays |
| BusinessRules.MonthExpectedPositive | backend/utils/businessRules.js:111-122 | every month 0..11 has a positive total |
| BusinessRules.ExpectedThroughMonotone | backend/utils/businessRules.js:111-122 | the running total never decreases as the walk goes on |
| BusinessRules.MonthWalkStep | backend/utils/businessRules.js:116-119 | one step of the walk adds that day's expected hours, and leaves the month only after its last day |
| BusinessRules.January2024Weeks | backend/utils/businessRules.js:111-122 | the first k full weeks of January 2024 expect 46.5 k hours |
| BusinessRules.January2024Week | backend/utils/businessRules.js:111-122 | every full week of January 2024 adds 46.5 expected hours |
| BusinessRules.January2024Expected | backend/utils/businessRules.js:111-122 | January 2024 expects 211.5 hours |
| ExcelParser.TimeColumnTests | backend/utils/excelParser.js:44-52 | the `in-time`/`out-time` alternatives of the time-column tests add nothing to the `time` test |
| ExcelParser.MatchesIgnoresCase | backend/utils/excelParser.js:34-52 | a header passes a column test exactly when its lower-cased form does |
| ExcelParser.CellTextAbsent | backend/utils/excelParser.js:64-65 | a row without a cell under the header reads as the empty text |
| ExcelParser.CellTextFirst | backend/utils/excelParser.js:64-65 | a row reads as the text of its first cell under the header |
| ExcelParser.FindColumn | backend/utils/excelParser.js:34-52 | `find` yields nothing exactly when no header passes the test |
| ExcelParser.ResolveColumns | backend/utils/excelParser.js:34-56 | resolution fails exactly when some role has no matching header; otherwise each role gets the first matching header in key order |
| ExcelParser.ClockOfSeconds | backend/utils/excelParser.js:159-161 | whole hours and minutes of the seconds, leftover seconds dropped; below one day the time is canonical |
| ExcelParser.MatchAt | backend/utils/excelParser.js:166 | a match of the time pattern has both fields below 100 |
| ExcelParser.FirstMatchFrom | backend/utils/excelParser.js:166 | `match` finds the leftmost position where the pattern matches, and no position before it matches |
| ExcelParser.ParseTimeString | backend/utils/excelParser.js:151-178 | empty text is no time; a numeric text gives the truncated time of its seconds; other text gives the leftmost `H:MM`/`HH:MM` match with both fields below 100, and no time exactly when nothing matches |
| ExcelParser.ParseFormattedTime | backend/utils/excelParser.js:166-170 | the parser maps its own `HH:MM` output back to the same time |
| ExcelParser.ParseTimeStringExamples | backend/utils/excelParser.js:151-173 | "9:5" is no time, "9:05" is 09:05, seconds are ignored, "123:45" is 23:45, minutes are not range-checked, 0.5 and 0.75 days are 12:00 and 18:00 |
| ExcelParser.DeriveStatus | backend/utils/excelParser.js:119-125 | holiday exactly when the policy expects no hours, leave exactly on a day with expected hours that is a leave, present otherwise |
| ExcelParser.TimeOfCell | backend/utils/excelParser.js:66-67 | a blank trimmed cell is no time; a non-blank cell the sheet reads as a number gives the clock that day fraction truncates to; any other non-blank cell gives the leftmost `H:MM` match of its trimmed text, and no time exactly when nothing in it matches |
| ExcelParser.TrimFormat | backend/utils/excelParser.js:66-67 | a time the parser formats has nothing to trim |
| ExcelParser.TimeOfFormattedCell | backend/utils/excelParser.js:66-67 | a cell holding a formatted time that is not read as a number gives back that time |
| ExcelParser.Normalize | backend/utils/excelParser.js:110-136 | a normalized record is canonical (policy hours, holiday iff non-working, leave iff working with a missing time, isLeave iff leave) and keeps the name, date and times |
| ExcelParser.NormalizeRow | backend/utils/excelParser.js:62-136 | a row is skipped exactly when its trimmed name or date is blank or its date does not parse; otherwise its record is canonical and carries the trimmed name and the parsed date |
| ExcelParser.NormalizeRowAccepted | backend/utils/excelParser.js:62-136 | a row with a non-blank name and a date that parses yields the record normalized from its trimmed name, parsed date and read times |
| ExcelParser.NormalizeRows | backend/utils/excelParser.js:59-137 | no more records than rows, every one canonical |
| ExcelParser.NormalizeRowsStep | backend/utils/excelParser.js:59-137 | one more row adds its record to the end of the output when accepted and nothing when skipped |
| ExcelParser.NormalizeRowsIsOrderedSelection | backend/utils/excelParser.js:59-137 | the output is the accepted rows' records in input order: the accepted indices strictly increase, the k-th record comes from the k-th accepted row, and a row is accepted iff it yields a record |
| ExcelParser.ParseExcel | backend/utils/excelParser.js:25-139 | an empty sheet fails with the empty-sheet error, a missing column with the columns error; otherwise no more records than rows, each canonical |
| ExcelParser.ParseExcelRows | backend/utils/excelParser.js:59-139 | the loop with its `continue` skips returns exactly the result `ParseExcel` describes |
| AttendanceRoutes.ValidateQuery | backend/routes/attendance.js:16-29 | missing parameters (absent, or an empty name) are rejected; then a NaN year or month or a month outside 0..11 is rejected; otherwise the query holds the parsed numbers |
| AttendanceRoutes.ValidateWrittenQuery | backend/routes/attendance.js:22-29 | a non-empty name with a decimal year and a month 0..11 always validates to those numbers |
| AttendanceRoutes.ActualHours | backend/routes/attendance.js:46 | the total of stored worked hours, a missing value as 0, is non-negative when every value is |
| AttendanceRoutes.ActualHoursAppend | backend/routes/attendance.js:46 | the total of two record lists joined is the sum of their totals |
| AttendanceRoutes.ActualHoursSingle | backend/routes/attendance.js:46 | a single record contributes its `workedHours`, or 0 when it has none |
| AttendanceRoutes.ActualHoursLast | backend/routes/attendance.js:46 | each step of the `reduce` adds the next record's `workedHours || 0` to the running sum, so the total is the sum of the stored worked hours with a missing value counted as 0 |
| AttendanceRoutes.LeavesUsed | backend/routes/attendance.js:47 | never more leaves than records, and none exactly when no record has `isLeave === true` |
| AttendanceRoutes.LeavesUsedPrefix | backend/routes/attendance.js:47 | the leaves among the first n records are the number of positions below n whose flag is `true` |
| AttendanceRoutes.LeavesUsedCountsFlags | backend/routes/attendance.js:47 | the leave count is the number of positions whose stored flag is `true` |
| AttendanceRoutes.Productivity | backend/routes/attendance.js:51-53 | 0 when nothing is expected; otherwise within half a hundredth of actual/expected * 100, always a whole number of hundredths |
| AttendanceRoutes.RoundHundredthsMonotone | backend/routes/attendance.js:52 | rounding to hundredths preserves order |
| AttendanceRoutes.ProductivityMonotone | backend/routes/attendance.js:51-53 | more worked hours never lower the productivity; actual equal to expected gives exactly 100 |
| AttendanceRoutes.MonthlySummary | backend/routes/attendance.js:45-65 | expected total is the policy month total whatever the records; actual is the rounded total; leaves used is the number of records flagged `true`, never above the record count; the limit is the constant 2; the productivity is that of the unrounded actual over the expected total |
| AttendanceRoutes.MonthlySummaryResponse | backend/routes/attendance.js:12-65 | an invalid request is answered with its validation error without the store; a valid one is answered with the summary of the records fetched for its query; a successful summary has a month in 0..11 and a positive expected total |
| AttendanceRoutes.RecordsByDateKeys | backend/routes/attendance.js:110-114 | the by-date index has an entry for a date exactly when some stored record has that date |
| AttendanceRoutes.RecordsByDateLastWins | backend/routes/attendance.js:110-114 | the index holds the last stored record of each date |
| AttendanceRoutes.RecordsByDateOwnDate | backend/routes/attendance.js:110-114 | every record in the index sits under its own date |
| AttendanceRoutes.IndexByDate | backend/routes/attendance.js:110-114 | the `forEach` builds that index, each record under its own date |
| AttendanceRoutes.EntryFor | backend/routes/attendance.js:122-170 | a stored day: holiday when non-working, leave when a time is missing, else the stored status (present by default), stored or policy expected hours, rounded or 0 worked hours, stored times and flag; a missing day: no times, 0 hours, policy hours, holiday or leave and never present |
| AttendanceRoutes.DailyBreakdown | backend/routes/attendance.js:96-174 | exactly one entry per calendar day of the month, valid dates in strictly ascending order, each built from that day's last stored record or synthesized |
| AttendanceRoutes.DailyBreakdownResponse | backend/routes/attendance.js:77-181 | an invalid request is answered with its validation error; a valid one gets the month's breakdown over the fetched records |
| AttendanceRoutes.StoredRecordInBreakdown | backend/routes/attendance.js:110-155 | each stored record of the month that no later record of the same date replaces determines its day's entry |
| UploadRoute.ToStored | backend/routes/upload.js:107-128 | the stored document keeps the key, times, status, leave flag and expected hours, and holds the worked hours rounded to hundredths, within half a hundredth of the record's |
| UploadRoute.UpsertAllKeys | backend/routes/upload.js:118-133 | after a batch the keys are the old keys plus the batch's keys |
| UploadRoute.UpsertAllUntouched | backend/routes/upload.js:118-133 | a document whose key the batch does not mention is unchanged, and no new one appears under it |
| UploadRoute.UpsertAllLastWins | backend/routes/upload.js:104-135 | each key the batch mentions holds the last record of the batch with that key |
| UploadRoute.UpsertAllKeyed | backend/models/Attendance.js:49 | every document stays under its own (employeeName, date) key |
| UploadRoute.StoredCanonical | backend/routes/upload.js:126 | rounding a canonical record's worked hours again changes nothing |
| UploadRoute.UploadedRecordReported | backend/routes/attendance.js:128-155 | a canonical record, stored and then reported, shows its own hours, status, times and leave flag |
| UploadRoute.AttendanceStore.Upsert | backend/routes/upload.js:118-133 | one upsert replaces or creates the document under the record's key and changes nothing else |
| UploadRoute.AttendanceStore.SaveRecords | backend/routes/upload.js:103-145 | success exactly when no write fails; then every record is upserted in order and one document is returned per record; after a failure the writes before it stay and the rest are not made |
| UploadRoute.ProcessUpload | backend/routes/upload.js:77-158 | a parse error or a sheet with no valid record is rejected and leaves the store unchanged; otherwise every record is upserted in order and their number reported, or, when a write fails, the writes before it stay and a database error is reported |

## Left out

- Express routing, HTTP status codes and JSON bodies are not modelled. Nor are the multer configuration, file-type and size filtering, temporary-file deletion, logging and the generic `catch` handlers. They are I/O plumbing; failures are modelled as `Result` errors instead.
- `backend/server.js` and the `/employees` endpoint (`backend/routes/attendance.js:192-200`) are not part of this model. The endpoint is a single `distinct` query.
- The spreadsheet library is a parameter: `XLSX.readFile`, `sheet_to_json`, `parse_date_code` and `new Date(string)`. So is the numeric reading of a time cell. The rows arrive as (header, text) cells, and the dates and seconds come from `parseDate` and `daySeconds`.
- The database query (`find` with the date range, `sort`) is a parameter. The report handlers receive the stored records it returns; they do not filter the store themselves.
- Dates have no time of day and no time zone. The midnight normalization `setHours(0, 0, 0, 0)` is therefore the identity. The `toISOString()` day keys are taken to be the local calendar date; in real JavaScript they are UTC and can shift by a day.
- IEEE-754 floating point is left out: all hour arithmetic is exact. This covers `timeValue * 86400`, the divisions in worked hours and productivity, and the sums.
- ExcelParser.ParseTimeString: takes the already rounded seconds as a natural number, so a negative numeric time cell is not modelled.
- Strings.ToLower: lower-cases ASCII letters only; `toLowerCase` on other scripts is not modelled.
- Strings.ParseInt: treats the same white space as `trim`, and does not model a query parameter given twice (an array).
- Calendar.FirstOfMonth: JavaScript's `Date` range limit (±10^8 days) is not modelled; years are unbounded. For a year beyond that range, such as 300000, `new Date` is an invalid date, so the month's query bounds (backend/routes/attendance.js:32-33 and 97-98) are invalid dates; the database query with them most likely fails to cast them, and the request then ends in the 500 error answer (backend/routes/attendance.js:66-68 and 182-184). The model instead gives such a year its calendar months, so the positive month total (`BusinessRules.MonthExpectedPositive`) and the one entry per day (`AttendanceRoutes.DailyBreakdown`) it proves do not hold for the source there.
- AttendanceRoutes.DailyBreakdown: requires a month in 0..11. The handler only reaches the walk after validation, so the carrying of out-of-range months into the year is not modelled there.
- UploadRoute.ToStored: the `parseFloat(...) || 0` fallbacks are not modelled. A parsed record always carries numbers, so they are never taken. The record's fields are stored as they are.
- Stored time strings are `Clock` values. A stored document whose time text is not `HH:MM` is not modelled.
- The Mongoose timestamps (`createdAt`, `updatedAt`) and the document id are not modelled.
