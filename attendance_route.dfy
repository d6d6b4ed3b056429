/**
 * app/api/attendance/route.ts: reading one class's attendance for a day, and
 * saving it by clearing the (class, date) slot and upserting one row per
 * submitted record, keyed on (student_id, date), with no rollback.
 */
module AttendanceRoute {
  import opened Wrappers
  import opened Text
  import opened Seqs
  import opened Types
  import opened Tables

  // ---------------------------------------------------------------------
  // GET /api/attendance?class_name=&date=

  datatype FetchResponse = Rows(rows: seq<AttendanceRow>) | MissingParams

  function FetchStatusCode(r: FetchResponse): int {
    if r.Rows? then 200 else 400
  }

  /** `ORDER BY student_name` */
  function ByStudentName(a: AttendanceRow, b: AttendanceRow): bool {
    StrLe(a.studentName, b.studentName)
  }

  lemma ByStudentNameTotal()
    ensures TotalPreorder(ByStudentName)
  {
    forall a: AttendanceRow, b: AttendanceRow
      ensures ByStudentName(a, b) || ByStudentName(b, a)
    {
      StrLeTotal(a.studentName, b.studentName);
    }
    forall a: AttendanceRow, b: AttendanceRow, c: AttendanceRow | ByStudentName(a, b) && ByStudentName(b, c)
      ensures ByStudentName(a, c)
    {
      StrLeTrans(a.studentName, b.studentName, c.studentName);
    }
  }

  /** The row belongs to the (class, date) slot. */
  predicate InSlot(r: AttendanceRow, c: string, d: string) {
    r.className == c && r.date == d
  }

  /** `WHERE class_name = c AND date = d`, in table order. */
  function SlotRows(rows: seq<AttendanceRow>, c: string, d: string): seq<AttendanceRow> {
    Filter(rows, (r: AttendanceRow) => InSlot(r, c, d))
  }

  /** Sorting the slot by name keeps exactly the slot's rows. */
  lemma SortedSlot(rows: seq<AttendanceRow>, c: string, d: string)
    ensures var r := SortBy(SlotRows(rows, c, d), ByStudentName);
      SortedBy(r, ByStudentName) &&
      (forall k :: 0 <= k < |r| ==> r[k] in rows && InSlot(r[k], c, d)) &&
      (forall k :: 0 <= k < |rows| && InSlot(rows[k], c, d) ==> rows[k] in r)
  {
    var slot := SlotRows(rows, c, d);
    var r := SortBy(slot, ByStudentName);
    ByStudentNameTotal();
    SortBySorted(slot, ByStudentName);
    forall k | 0 <= k < |r|
      ensures r[k] in rows && InSlot(r[k], c, d)
    {
      SortByMembers(slot, ByStudentName, r[k]);
      var j :| 0 <= j < |slot| && slot[j] == r[k];
    }
    forall k | 0 <= k < |rows| && InSlot(rows[k], c, d)
      ensures rows[k] in r
    {
      SortByMembers(slot, ByStudentName, rows[k]);
    }
  }

  /** The GET handler: 400 unless both parameters are given, else the slot's rows by student name. */
  function GetAttendance(rows: seq<AttendanceRow>, className: Option<string>, date: Option<string>)
    : (r: FetchResponse)
    ensures r.MissingParams? <==> !Truthy(className) || !Truthy(date)
    ensures r.Rows? ==> SortedBy(r.rows, ByStudentName)
    ensures r.Rows? ==> forall k :: 0 <= k < |r.rows| ==>
                          r.rows[k] in rows && InSlot(r.rows[k], className.value, date.value)
    ensures r.Rows? ==> forall k :: 0 <= k < |rows| && InSlot(rows[k], className.value, date.value) ==>
                          rows[k] in r.rows
    ensures r.Rows? ==> multiset(r.rows) == multiset(SlotRows(rows, className.value, date.value))
  {
    if !Truthy(className) || !Truthy(date) then MissingParams
    else
      SortedSlot(rows, className.value, date.value);
      Rows(SortBy(SlotRows(rows, className.value, date.value), ByStudentName))
  }

  // ---------------------------------------------------------------------
  // POST /api/attendance: request, checks and the upsert.

  /** One element of `records`, as the handler destructures it. */
  datatype RecordInput = RecordInput(studentId: nat, studentName: string, status: string)

  /** The parsed body; `records` is `None` when it is missing or not an array. */
  datatype SaveRequest = SaveRequest(className: Option<string>, date: Option<string>,
                                     records: Option<seq<RecordInput>>)

  datatype SaveError = MissingFields | UnknownClass | NotInClass(studentName: string)
                     | InvalidStatus(studentName: string)

  datatype SaveResponse = Saved | Rejected(error: SaveError)

  /** 200 on success; every rejection of this handler is a 400. */
  function SaveStatusCode(r: SaveResponse): int {
    if r.Saved? then 200 else 400
  }

  /** `SELECT * FROM students WHERE id = ... AND class_name = ...` finds a row. */
  predicate Enrolled(students: seq<StudentRow>, id: nat, c: string) {
    exists k :: 0 <= k < |students| && students[k].id == id && students[k].className == c
  }

  /** The two checks the loop makes on one record: enrolment first, then status. */
  function CheckRecord(students: seq<StudentRow>, c: string, rec: RecordInput)
    : (r: Result<AttendanceStatus, SaveError>)
    ensures r.Ok? <==> Enrolled(students, rec.studentId, c) && (rec.status == "Present" || rec.status == "Absent")
    ensures r.Ok? ==> AttendanceStatusName(r.value) == rec.status
    ensures !Enrolled(students, rec.studentId, c) ==> r == Err(NotInClass(rec.studentName))
    ensures Enrolled(students, rec.studentId, c) && r.Err? ==> r == Err(InvalidStatus(rec.studentName))
  {
    if !Enrolled(students, rec.studentId, c) then Err(NotInClass(rec.studentName))
    else match ParseAttendanceStatus(rec.status)
      case None => Err(InvalidStatus(rec.studentName))
      case Some(st) => Ok(st)
  }

  /** The index of the first record that fails its checks, if one does. */
  function FirstInvalid(students: seq<StudentRow>, c: string, recs: seq<RecordInput>): (r: Option<nat>)
    ensures r.Some? ==> r.value < |recs| && CheckRecord(students, c, recs[r.value]).Err?
    ensures r.Some? ==> forall k :: 0 <= k < r.value ==> CheckRecord(students, c, recs[k]).Ok?
    ensures r.None? ==> forall k :: 0 <= k < |recs| ==> CheckRecord(students, c, recs[k]).Ok?
  {
    if recs == [] then None
    else if CheckRecord(students, c, recs[0]).Err? then Some(0)
    else match FirstInvalid(students, c, recs[1..])
      case None => None
      case Some(k) => Some(k + 1)
  }

  /** A record that passed its checks: what the upsert writes. */
  datatype Mark = Mark(studentId: nat, studentName: string, status: AttendanceStatus)

  /** The marks of records that all pass their checks. */
  function Marks(students: seq<StudentRow>, c: string, recs: seq<RecordInput>): (ms: seq<Mark>)
    requires forall k :: 0 <= k < |recs| ==> CheckRecord(students, c, recs[k]).Ok?
    ensures |ms| == |recs|
    ensures forall k :: 0 <= k < |recs| ==>
              ms[k] == Mark(recs[k].studentId, recs[k].studentName, CheckRecord(students, c, recs[k]).value)
  {
    seq(|recs|, k requires 0 <= k < |recs| =>
      Mark(recs[k].studentId, recs[k].studentName, CheckRecord(students, c, recs[k]).value))
  }

  /** The attendance table with its SERIAL counter. */
  datatype Table = Table(rows: seq<AttendanceRow>, nextId: nat)

  /** Position of the first row keyed (sid, d), if any. */
  function FindKey(rows: seq<AttendanceRow>, sid: nat, d: string): (r: Option<nat>)
    ensures r.Some? ==> r.value < |rows| && rows[r.value].studentId == sid && rows[r.value].date == d
    ensures r.Some? ==> forall k :: 0 <= k < r.value ==> !(rows[k].studentId == sid && rows[k].date == d)
    ensures r.None? ==> forall k :: 0 <= k < |rows| ==> !(rows[k].studentId == sid && rows[k].date == d)
  {
    if rows == [] then None
    else if rows[0].studentId == sid && rows[0].date == d then Some(0)
    else match FindKey(rows[1..], sid, d)
      case None => None
      case Some(k) => Some(k + 1)
  }

  /**
   * `INSERT ... ON CONFLICT (student_id, date) DO UPDATE SET status = EXCLUDED.status,
   * created_at = NOW()`: a row already keyed (sid, d) keeps its id, name and class.
   * The candidate row draws its id from the SERIAL sequence before the conflict is
   * detected, so the counter advances on both paths.
   */
  function Upsert(t: Table, m: Mark, c: string, d: string, now: nat): (u: Table)
    ensures u.nextId == t.nextId + 1
    ensures |t.rows| <= |u.rows| <= |t.rows| + 1
  {
    match FindKey(t.rows, m.studentId, d)
    case Some(i) => Table(t.rows[i := t.rows[i].(status := m.status, createdAt := now)], t.nextId + 1)
    case None => Table(t.rows + [AttendanceRow(t.nextId, m.studentId, m.studentName, c, d, m.status, now)],
                       t.nextId + 1)
  }

  /** The upserts of `ms`, in order: one sequence value per mark, and at most one new row each. */
  function UpsertAll(t: Table, ms: seq<Mark>, c: string, d: string, now: nat): (u: Table)
    ensures u.nextId == t.nextId + |ms|
    ensures |t.rows| <= |u.rows| <= |t.rows| + |ms|
  {
    if ms == [] then t
    else Upsert(UpsertAll(t, ms[..|ms| - 1], c, d, now), ms[|ms| - 1], c, d, now)
  }

  /**
   * What one upsert does to a table that satisfies the unique key: the row keyed
   * (sid, d), if there is one, gets the new status and timestamp and nothing else;
   * otherwise exactly one row is appended.  Either way the SERIAL counter moves
   * on by one.  The key stays unique.
   */
  lemma UpsertSpec(t: Table, m: Mark, c: string, d: string, now: nat)
    requires KeysUnique(t.rows)
    ensures var u := Upsert(t, m, c, d, now);
      KeysUnique(u.rows) &&
      ((exists k :: 0 <= k < |t.rows| && t.rows[k].studentId == m.studentId && t.rows[k].date == d) ==>
        |u.rows| == |t.rows| && u.nextId == t.nextId + 1 &&
        forall k :: 0 <= k < |t.rows| ==>
          if t.rows[k].studentId == m.studentId && t.rows[k].date == d
          then u.rows[k] == t.rows[k].(status := m.status, createdAt := now)
          else u.rows[k] == t.rows[k]) &&
      ((forall k :: 0 <= k < |t.rows| ==> !(t.rows[k].studentId == m.studentId && t.rows[k].date == d)) ==>
        u.rows == t.rows + [AttendanceRow(t.nextId, m.studentId, m.studentName, c, d, m.status, now)] &&
        u.nextId == t.nextId + 1)
  {
    var u := Upsert(t, m, c, d, now);
    match FindKey(t.rows, m.studentId, d)
    case Some(i) =>
      forall k | 0 <= k < |t.rows| && k != i
        ensures !(t.rows[k].studentId == m.studentId && t.rows[k].date == d)
      {
        if k > i {
          assert !SameKey(t.rows[i], t.rows[k]);
        }
      }
      forall a, b | 0 <= a < b < |u.rows|
        ensures !SameKey(u.rows[a], u.rows[b])
      {
        assert SameKey(u.rows[a], u.rows[b]) == SameKey(t.rows[a], t.rows[b]);
      }
    case None =>
  }

  /** Every row the upserts of valid marks leave behind refers to an existing student. */
  lemma UpsertKeepsValid(t: Table, m: Mark, c: string, d: string, now: nat, students: seq<StudentRow>)
    requires AttendanceValid(t.rows, t.nextId, students)
    requires HasStudent(students, m.studentId)
    ensures AttendanceValid(Upsert(t, m, c, d, now).rows, Upsert(t, m, c, d, now).nextId, students)
  {
    UpsertSpec(t, m, c, d, now);
  }

  /** `DELETE FROM attendance WHERE class_name = c AND date = d` */
  function ClearSlot(rows: seq<AttendanceRow>, c: string, d: string): (r: seq<AttendanceRow>)
    ensures forall k :: 0 <= k < |r| ==> r[k] in rows && !InSlot(r[k], c, d)
    ensures forall k :: 0 <= k < |rows| && !InSlot(rows[k], c, d) ==> rows[k] in r
  {
    Filter(rows, (x: AttendanceRow) => !InSlot(x, c, d))
  }

  /** Deleting rows keeps the unique key and the references to students. */
  lemma ClearSlotKeepsValid(rows: seq<AttendanceRow>, c: string, d: string, students: seq<StudentRow>, next: nat)
    requires AttendanceValid(rows, next, students)
    ensures AttendanceValid(ClearSlot(rows, c, d), next, students)
  {
    assert Pairwise(rows, DistinctKeys);
    FilterPairwise(rows, (x: AttendanceRow) => !InSlot(x, c, d), DistinctKeys);
    var r := ClearSlot(rows, c, d);
    forall k | 0 <= k < |r|
      ensures HasStudent(students, r[k].studentId) && r[k].id < next
    {
      var j :| 0 <= j < |rows| && rows[j] == r[k];
    }
  }

  function DistinctKeys(a: AttendanceRow, b: AttendanceRow): bool {
    !SameKey(a, b)
  }

  // ---------------------------------------------------------------------
  // POST /api/attendance as a whole.

  /** The table after the call and the response. */
  datatype SaveOutcome = SaveOutcome(table: Table, response: SaveResponse)

  /** The request passes the first guard (line 40 of the handler). */
  predicate WellFormed(req: SaveRequest) {
    Truthy(req.className) && Truthy(req.date) && req.records.Some?
  }

  /**
   * The POST handler as a function of the tables: the guard and the class lookup
   * change nothing; after them the slot is cleared and the records are upserted in
   * order until the first one that fails its checks, whose rejection keeps the
   * clearing and every earlier upsert.
   */
  function Post(t: Table, classes: seq<ClassRow>, students: seq<StudentRow>, req: SaveRequest, now: nat)
    : (o: SaveOutcome)
    ensures o.response == Rejected(MissingFields) <==> !WellFormed(req)
    ensures WellFormed(req) ==> (o.response == Rejected(UnknownClass) <==> !ClassExists(classes, req.className.value))
    ensures o.response in {Rejected(MissingFields), Rejected(UnknownClass)} ==> o.table == t
    ensures o.response.Saved? ==>
              WellFormed(req) && ClassExists(classes, req.className.value) &&
              forall k :: 0 <= k < |req.records.value| ==>
                CheckRecord(students, req.className.value, req.records.value[k]).Ok?
  {
    if !WellFormed(req) then SaveOutcome(t, Rejected(MissingFields))
    else
      var c, d, recs := req.className.value, req.date.value, req.records.value;
      if !ClassExists(classes, c) then SaveOutcome(t, Rejected(UnknownClass))
      else
        var cleared := Table(ClearSlot(t.rows, c, d), t.nextId);
        match FirstInvalid(students, c, recs)
        case Some(k) =>
          SaveOutcome(UpsertAll(cleared, Marks(students, c, recs[..k]), c, d, now),
                      Rejected(CheckRecord(students, c, recs[k]).error))
        case None =>
          SaveOutcome(UpsertAll(cleared, Marks(students, c, recs), c, d, now), Saved)
  }

  /**
   * The handler itself, step by step: guard, class lookup, delete, then the `for`
   * loop that checks one record and upserts it, returning 400 mid-loop with the
   * work done so far left in place.
   */
  method PostAttendance(db: Database, req: SaveRequest, now: nat) returns (response: SaveResponse)
    requires db.Valid()
    modifies db
    ensures db.Valid()
    ensures db.classes == old(db.classes) && db.students == old(db.students)
    ensures db.nextClassId == old(db.nextClassId) && db.nextStudentId == old(db.nextStudentId)
    ensures Post(Table(old(db.attendance), old(db.nextAttendanceId)), old(db.classes), old(db.students), req, now)
            == SaveOutcome(Table(db.attendance, db.nextAttendanceId), response)
  {
    if !WellFormed(req) {
      return Rejected(MissingFields);
    }
    var c, d, recs := req.className.value, req.date.value, req.records.value;
    if !ClassExists(db.classes, c) {
      return Rejected(UnknownClass);
    }
    ClearSlotKeepsValid(db.attendance, c, d, db.students, db.nextAttendanceId);
    db.attendance := ClearSlot(db.attendance, c, d);
    ghost var cleared := Table(db.attendance, db.nextAttendanceId);
    assert recs[..0] == [];
    for i := 0 to |recs|
      invariant AttendanceValid(db.attendance, db.nextAttendanceId, db.students)
      invariant db.classes == old(db.classes) && db.students == old(db.students)
      invariant db.nextClassId == old(db.nextClassId) && db.nextStudentId == old(db.nextStudentId)
      invariant forall k :: 0 <= k < i ==> CheckRecord(db.students, c, recs[k]).Ok?
      invariant Table(db.attendance, db.nextAttendanceId) == UpsertAll(cleared, Marks(db.students, c, recs[..i]), c, d, now)
    {
      var rec := recs[i];
      if !Enrolled(db.students, rec.studentId, c) {
        assert FirstInvalid(db.students, c, recs) == Some(i) by {
          FirstInvalidAt(db.students, c, recs, i);
        }
        return Rejected(NotInClass(rec.studentName));
      }
      var status := ParseAttendanceStatus(rec.status);
      if status.None? {
        assert FirstInvalid(db.students, c, recs) == Some(i) by {
          FirstInvalidAt(db.students, c, recs, i);
        }
        return Rejected(InvalidStatus(rec.studentName));
      }
      var m := Mark(rec.studentId, rec.studentName, status.value);
      UpsertAllStep(cleared, db.students, c, d, now, recs, i);
      UpsertKeepsValid(Table(db.attendance, db.nextAttendanceId), m, c, d, now, db.students);
      var t := Upsert(Table(db.attendance, db.nextAttendanceId), m, c, d, now);
      db.attendance, db.nextAttendanceId := t.rows, t.nextId;
    }
    assert recs[..|recs|] == recs;
    assert FirstInvalid(db.students, c, recs) == None by {
      FirstInvalidNone(db.students, c, recs);
    }
    return Saved;
  }

  /** Upserting one more checked record extends the replay by one step. */
  lemma UpsertAllStep(t: Table, students: seq<StudentRow>, c: string, d: string, now: nat,
                      recs: seq<RecordInput>, i: nat)
    requires i < |recs|
    requires forall k :: 0 <= k <= i ==> CheckRecord(students, c, recs[k]).Ok?
    ensures UpsertAll(t, Marks(students, c, recs[..i + 1]), c, d, now)
            == Upsert(UpsertAll(t, Marks(students, c, recs[..i]), c, d, now),
                      Mark(recs[i].studentId, recs[i].studentName, CheckRecord(students, c, recs[i]).value),
                      c, d, now)
  {
    var before := Marks(students, c, recs[..i]);
    var m := Mark(recs[i].studentId, recs[i].studentName, CheckRecord(students, c, recs[i]).value);
    assert Marks(students, c, recs[..i + 1]) == before + [m];
    assert (before + [m])[..|before|] == before;
  }

  /** A record that fails, after records that all pass, is the first failure. */
  lemma {:induction false} FirstInvalidAt(students: seq<StudentRow>, c: string, recs: seq<RecordInput>, i: nat)
    requires i < |recs| && CheckRecord(students, c, recs[i]).Err?
    requires forall k :: 0 <= k < i ==> CheckRecord(students, c, recs[k]).Ok?
    ensures FirstInvalid(students, c, recs) == Some(i)
  {
    if i > 0 {
      FirstInvalidAt(students, c, recs[1..], i - 1);
    }
  }

  lemma {:induction false} FirstInvalidNone(students: seq<StudentRow>, c: string, recs: seq<RecordInput>)
    requires forall k :: 0 <= k < |recs| ==> CheckRecord(students, c, recs[k]).Ok?
    ensures FirstInvalid(students, c, recs) == None
  {
    if recs != [] {
      FirstInvalidNone(students, c, recs[1..]);
    }
  }
}
