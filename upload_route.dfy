/**
 * The save step of the upload route: the parsed records are written one
 * by one into the attendance collection, each replacing or creating the
 * document under its (employeeName, date) key, the key the collection's
 * unique compound index enforces. A batch that parses to nothing writes
 * nothing; a failed write ends the batch with the earlier writes kept.
 */
module UploadRoute {
  import opened Wrappers
  import opened Calendar
  import opened BusinessRules
  import opened Records
  import opened ExcelParser
  import opened AttendanceRoutes

  /** The unique key of a document. */
  type Key = (string, Date)

  /** The key a record is upserted under; dates carry no time of day, so they are already at midnight. */
  function KeyOf(r: AttendanceRecord): Key {
    (r.employeeName, r.date)
  }

  /** Every document sits under its own (employeeName, date). */
  predicate Keyed(documents: map<Key, StoredRecord>) {
    forall k :: k in documents ==> (documents[k].employeeName, documents[k].date) == k
  }

  /**
   * The document an upsert leaves: every field of the record, with
   * worked hours rounded half-up to hundredths.
   */
  function ToStored(r: AttendanceRecord): (d: StoredRecord)
    ensures (d.employeeName, d.date) == KeyOf(r)
    ensures d.status == Some(r.status) && d.isLeave == Some(r.isLeave)
    ensures d.expectedHours == Some(r.expectedHours)
    ensures d.inTime == r.inTime && d.outTime == r.outTime
    ensures d.workedHours == Some(RoundHundredths(r.workedHours))
    ensures r.workedHours - 0.005 < d.workedHours.value <= r.workedHours + 0.005
  {
    StoredRecord(r.employeeName, r.date, r.inTime, r.outTime,
      Some(r.expectedHours), Some(RoundHundredths(r.workedHours)), Some(r.status), Some(r.isLeave))
  }

  /** The collection after upserting `recs` in order. */
  function UpsertAll(documents: map<Key, StoredRecord>, recs: seq<AttendanceRecord>): map<Key, StoredRecord> {
    if recs == [] then documents
    else
      var last := recs[|recs| - 1];
      UpsertAll(documents, recs[..|recs| - 1])[KeyOf(last) := ToStored(last)]
  }

  /** The keys after a batch are the old keys and the batch's keys. */
  lemma {:induction false} UpsertAllKeys(documents: map<Key, StoredRecord>, recs: seq<AttendanceRecord>)
    ensures UpsertAll(documents, recs).Keys == documents.Keys + set i | 0 <= i < |recs| :: KeyOf(recs[i])
  {
    if recs != [] {
      var n := |recs| - 1;
      UpsertAllKeys(documents, recs[..n]);
      assert forall i :: 0 <= i < n ==> recs[..n][i] == recs[i];
      assert (set i | 0 <= i < |recs| :: KeyOf(recs[i])) ==
        (set i | 0 <= i < n :: KeyOf(recs[..n][i])) + {KeyOf(recs[n])};
    }
  }

  /** A document whose key the batch does not mention is left as it was. */
  lemma {:induction false} UpsertAllUntouched(documents: map<Key, StoredRecord>, recs: seq<AttendanceRecord>, k: Key)
    requires forall i :: 0 <= i < |recs| ==> KeyOf(recs[i]) != k
    ensures k in UpsertAll(documents, recs) <==> k in documents
    ensures k in documents ==> UpsertAll(documents, recs)[k] == documents[k]
  {
    if recs != [] {
      var n := |recs| - 1;
      assert forall i :: 0 <= i < n ==> recs[..n][i] == recs[i];
      UpsertAllUntouched(documents, recs[..n], k);
    }
  }

  /** Last write wins: a key holds the last record of the batch with that key. */
  lemma {:induction false} UpsertAllLastWins(documents: map<Key, StoredRecord>, recs: seq<AttendanceRecord>, i: nat)
    requires i < |recs|
    requires forall j :: i < j < |recs| ==> KeyOf(recs[j]) != KeyOf(recs[i])
    ensures KeyOf(recs[i]) in UpsertAll(documents, recs)
    ensures UpsertAll(documents, recs)[KeyOf(recs[i])] == ToStored(recs[i])
  {
    var n := |recs| - 1;
    if i < n {
      assert forall j :: i < j < n ==> recs[..n][j] == recs[j];
      UpsertAllLastWins(documents, recs[..n], i);
      assert recs[..n][i] == recs[i];
    }
  }

  /** Upserting keeps every document under its own key. */
  lemma {:induction false} UpsertAllKeyed(documents: map<Key, StoredRecord>, recs: seq<AttendanceRecord>)
    requires Keyed(documents)
    ensures Keyed(UpsertAll(documents, recs))
  {
    if recs != [] {
      UpsertAllKeyed(documents, recs[..|recs| - 1]);
    }
  }

  /**
   * A canonical record's worked hours are already whole hundredths, so
   * storing it keeps every number exactly.
   */
  lemma StoredCanonical(r: AttendanceRecord)
    requires Canonical(r)
    ensures ToStored(r).workedHours == Some(r.workedHours)
  {
    if r.inTime.Some? && r.outTime.Some? {
      RoundHundredthsIdempotent(ElapsedMinutes(r.inTime.value, r.outTime.value) as real / 60.0);
    } else {
      assert RoundHundredths(0.0) == 0.0 by {
        assert (0.0 * 100.0 + 0.5).Floor == 0;
      }
    }
  }

  /**
   * Uploading then reporting: the breakdown entry of a day whose stored
   * document came from a canonical record shows that record unchanged.
   */
  lemma UploadedRecordReported(r: AttendanceRecord)
    requires Canonical(r)
    ensures EntryFor(r.date, Some(ToStored(r))) ==
      DayEntry(r.date, r.expectedHours, r.workedHours, r.status, r.inTime, r.outTime, r.isLeave)
  {
    StoredCanonical(r);
    if r.inTime.Some? && r.outTime.Some? {
      RoundHundredthsIdempotent(ElapsedMinutes(r.inTime.value, r.outTime.value) as real / 60.0);
    }
  }

  /** Why an upload fails. */
  datatype UploadError = ParseFailed(cause: ParseError) | NoValidRecords | DatabaseError

  /** The attendance collection. */
  class AttendanceStore {
    var documents: map<Key, StoredRecord>

    ghost predicate Valid()
      reads this
    {
      Keyed(documents)
    }

    constructor ()
      ensures Valid() && documents == map[]
    {
      documents := map[];
    }

    /** `findOneAndUpdate({employeeName, date}, {...}, {upsert: true, new: true})` */
    method Upsert(r: AttendanceRecord) returns (saved: StoredRecord)
      requires Valid()
      modifies this
      ensures Valid()
      ensures documents == old(documents)[KeyOf(r) := ToStored(r)]
      ensures saved == ToStored(r)
    {
      saved := ToStored(r);
      documents := documents[KeyOf(r) := saved];
    }

    /**
     * The save loop: one upsert per record, in order. When the write at
     * index `failAt` fails, the loop stops there and the writes before it
     * stay; otherwise every record is saved.
     */
    method SaveRecords(recs: seq<AttendanceRecord>, failAt: Option<nat>) returns (saved: seq<StoredRecord>, ok: bool)
      requires Valid()
      modifies this
      ensures Valid()
      ensures ok <==> failAt.None? || failAt.value >= |recs|
      ensures ok ==> documents == UpsertAll(old(documents), recs) && |saved| == |recs|
      ensures ok ==> forall i :: 0 <= i < |recs| ==> saved[i] == ToStored(recs[i])
      ensures !ok ==> documents == UpsertAll(old(documents), recs[..failAt.value])
    {
      saved := [];
      for i := 0 to |recs|
        invariant Valid()
        invariant documents == UpsertAll(old(documents), recs[..i])
        invariant failAt.Some? ==> i <= failAt.value
        invariant |saved| == i && forall j :: 0 <= j < i ==> saved[j] == ToStored(recs[j])
      {
        if failAt == Some(i) {
          return saved, false;
        }
        assert recs[..i + 1][..i] == recs[..i];
        var doc := Upsert(recs[i]);
        saved := saved + [doc];
      }
      assert recs[..|recs|] == recs;
      return saved, true;
    }
  }

  /**
   * The upload handler after the file is decoded: a parse error or a
   * sheet without one valid record is rejected and the collection is not
   * touched; otherwise the records are saved and their number reported.
   */
  method ProcessUpload(store: AttendanceStore, rows: seq<Row>, parseDate: string -> Option<Date>,
                       daySeconds: string -> Option<nat>, failAt: Option<nat>)
    returns (r: Result<nat, UploadError>)
    requires store.Valid()
    modifies store
    ensures store.Valid()
    ensures ParseExcel(rows, parseDate, daySeconds).Failure? ==>
      r == Failure(ParseFailed(ParseExcel(rows, parseDate, daySeconds).error)) && unchanged(store)
    ensures ParseExcel(rows, parseDate, daySeconds) == Success([]) ==>
      r == Failure(NoValidRecords) && unchanged(store)
    ensures ParseExcel(rows, parseDate, daySeconds).Success? && ParseExcel(rows, parseDate, daySeconds).value != [] ==>
      var recs := ParseExcel(rows, parseDate, daySeconds).value;
      if failAt.None? || failAt.value >= |recs| then
        r == Success(|recs|) && store.documents == UpsertAll(old(store.documents), recs)
      else
        r == Failure(DatabaseError) && store.documents == UpsertAll(old(store.documents), recs[..failAt.value])
    ensures r.Success? ==>
      && ParseExcel(rows, parseDate, daySeconds).Success?
      && r.value == |ParseExcel(rows, parseDate, daySeconds).value| > 0
      && store.documents == UpsertAll(old(store.documents), ParseExcel(rows, parseDate, daySeconds).value)
    ensures r == Failure(DatabaseError) ==>
      && ParseExcel(rows, parseDate, daySeconds).Success?
      && failAt.Some? && failAt.value < |ParseExcel(rows, parseDate, daySeconds).value|
      && store.documents == UpsertAll(old(store.documents), ParseExcel(rows, parseDate, daySeconds).value[..failAt.value])
  {
    var parsed := ParseExcelRows(rows, parseDate, daySeconds);
    if parsed.Failure? {
      return Failure(ParseFailed(parsed.error));
    }
    var records := parsed.value;
    if |records| == 0 {
      return Failure(NoValidRecords);
    }
    var saved, ok := store.SaveRecords(records, failAt);
    if !ok {
      return Failure(DatabaseError);
    }
    return Success(|saved|);
  }
}
