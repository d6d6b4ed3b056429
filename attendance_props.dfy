/**
 * Properties of POST /api/attendance as a whole, stated on the request and the
 * attendance rows: what the (class, date) slot holds after a save, what a
 * rejection mid-list leaves behind, idempotence, and two concrete scenarios.
 */
module AttendanceProps {
  import opened Wrappers
  import opened Seqs
  import opened Types
  import opened Tables
  import opened AttendanceRoute
  import opened AttendanceFacts

  /** How many records the loop upserts: all of them, or those before the first failure. */
  function Processed(students: seq<StudentRow>, c: string, recs: seq<RecordInput>): (n: nat)
    ensures n <= |recs|
    ensures forall k :: 0 <= k < n ==> CheckRecord(students, c, recs[k]).Ok?
    ensures n < |recs| ==> CheckRecord(students, c, recs[n]).Err?
  {
    match FirstInvalid(students, c, recs)
    case Some(k) => k
    case None => |recs|
  }

  /** The status string of the last of `recs` that names `sid`, if one does. */
  function LastGiven(recs: seq<RecordInput>, sid: nat): (r: Option<string>)
    ensures r.Some? <==> exists j :: 0 <= j < |recs| && recs[j].studentId == sid
    ensures r.Some? ==> exists j :: 0 <= j < |recs| && recs[j].studentId == sid && recs[j].status == r.value &&
                           forall j' :: j < j' < |recs| ==> recs[j'].studentId != sid
  {
    if recs == [] then None
    else if recs[|recs| - 1].studentId == sid then Some(recs[|recs| - 1].status)
    else
      var r := LastGiven(recs[..|recs| - 1], sid);
      assert forall k :: 0 <= k < |recs| - 1 ==> recs[..|recs| - 1][k] == recs[k];
      r
  }

  /** The marks of checked records carry exactly the statuses the records gave. */
  lemma {:induction false} MarksLast(students: seq<StudentRow>, c: string, recs: seq<RecordInput>, sid: nat)
    requires forall k :: 0 <= k < |recs| ==> CheckRecord(students, c, recs[k]).Ok?
    ensures LastGiven(recs, sid) ==
            if LastMark(Marks(students, c, recs), sid).Some?
            then Some(AttendanceStatusName(LastMark(Marks(students, c, recs), sid).value)) else None
  {
    if recs != [] {
      var pre, last := recs[..|recs| - 1], recs[|recs| - 1];
      MarksLast(students, c, pre, sid);
      var m := MarksSnoc(students, c, recs);
      LastMarkSnoc(Marks(students, c, pre), m, sid);
      assert LastGiven(recs, sid) == if last.studentId == sid then Some(last.status) else LastGiven(pre, sid);
    }
  }

  /** The marks of a non-empty list are those of all but its last record, then the last one's. */
  lemma MarksSnoc(students: seq<StudentRow>, c: string, recs: seq<RecordInput>) returns (m: Mark)
    requires recs != [] && forall k :: 0 <= k < |recs| ==> CheckRecord(students, c, recs[k]).Ok?
    ensures m.studentId == recs[|recs| - 1].studentId
    ensures AttendanceStatusName(m.status) == recs[|recs| - 1].status
    ensures Marks(students, c, recs) == Marks(students, c, recs[..|recs| - 1]) + [m]
  {
    var ms := Marks(students, c, recs);
    m := ms[|ms| - 1];
    assert ms == Marks(students, c, recs[..|recs| - 1]) + [m];
  }

  lemma MarksMarked(students: seq<StudentRow>, c: string, recs: seq<RecordInput>, j: nat)
    requires forall k :: 0 <= k < |recs| ==> CheckRecord(students, c, recs[k]).Ok?
    requires j < |recs|
    ensures Marked(Marks(students, c, recs), recs[j].studentId)
  {
    assert Marks(students, c, recs)[j].studentId == recs[j].studentId;
  }

  lemma {:induction false} UpsertAllKeysUnique(t: Table, ms: seq<Mark>, c: string, d: string, now: nat)
    requires KeysUnique(t.rows)
    ensures KeysUnique(UpsertAll(t, ms, c, d, now).rows)
  {
    if ms != [] {
      UpsertAllKeysUnique(t, ms[..|ms| - 1], c, d, now);
      UpsertSpec(UpsertAll(t, ms[..|ms| - 1], c, d, now), ms[|ms| - 1], c, d, now);
    }
  }

  lemma ClearSlotKeysUnique(rows: seq<AttendanceRow>, c: string, d: string)
    requires KeysUnique(rows)
    ensures KeysUnique(ClearSlot(rows, c, d))
  {
    assert Pairwise(rows, DistinctKeys);
    FilterPairwise(rows, (x: AttendanceRow) => !InSlot(x, c, d), DistinctKeys);
  }

  /**
   * Once the guard and the class lookup pass, the table after the call is the
   * closed form of the loop over the cleared table, for the records processed.
   */
  lemma PostClosedForm(t: Table, classes: seq<ClassRow>, students: seq<StudentRow>, req: SaveRequest, now: nat)
    requires KeysUnique(t.rows)
    requires WellFormed(req) && ClassExists(classes, req.className.value)
    ensures var c, d, recs := req.className.value, req.date.value, req.records.value;
      var cf := Facts(ClearSlot(t.rows, c, d));
      var ms := Marks(students, c, recs[..Processed(students, c, recs)]);
      var rows := Post(t, classes, students, req, now).table.rows;
      KeysUnique(rows) &&
      Facts(rows) == Restatus(cf, d, ms) + UpsertAllF([], Unkeyed(cf, d, ms), c, d)
  {
    var c, d, recs := req.className.value, req.date.value, req.records.value;
    var cleared := Table(ClearSlot(t.rows, c, d), t.nextId);
    var n := Processed(students, c, recs);
    assert recs[..|recs|] == recs;
    var ms := Marks(students, c, recs[..n]);
    assert Post(t, classes, students, req, now).table == UpsertAll(cleared, ms, c, d, now);
    ClearSlotKeysUnique(t.rows, c, d);
    UpsertAllKeysUnique(cleared, ms, c, d, now);
    FactsKeysUnique(cleared.rows);
    FactsOfUpsertAll(cleared, ms, c, d, now);
    UpsertAllClosedForm(Facts(cleared.rows), ms, c, d);
  }

  /** The closed form read through `ClosedFormShape`, for the rows `Post` leaves. */
  lemma PostShape(t: Table, classes: seq<ClassRow>, students: seq<StudentRow>, req: SaveRequest, now: nat)
    requires KeysUnique(t.rows)
    requires WellFormed(req) && ClassExists(classes, req.className.value)
    ensures var c, d, recs := req.className.value, req.date.value, req.records.value;
      var cl := ClearSlot(t.rows, c, d);
      var ms := Marks(students, c, recs[..Processed(students, c, recs)]);
      var f := Facts(Post(t, classes, students, req, now).table.rows);
      KeysUnique(Post(t, classes, students, req, now).table.rows) && |cl| <= |f| &&
      (forall k :: 0 <= k < |cl| ==> f[k] == Restatus(Facts(cl), d, ms)[k]) &&
      (forall k :: |cl| <= k < |f| ==> f[k].className == c && f[k].date == d) &&
      (forall k :: 0 <= k < |f| && f[k].className == c && f[k].date == d ==>
         LastMark(ms, f[k].studentId) == Some(f[k].status)) &&
      (forall sid :: Marked(ms, sid) ==> MarkedFact(f, ms, sid, d))
  {
    var c, d, recs := req.className.value, req.date.value, req.records.value;
    var cl := ClearSlot(t.rows, c, d);
    var ms := Marks(students, c, recs[..Processed(students, c, recs)]);
    PostClosedForm(t, classes, students, req, now);
    ClearSlotKeysUnique(t.rows, c, d);
    FactsKeysUnique(cl);
    ClosedFormShape(Facts(cl), ms, c, d);
  }

  /**
   * Whether the call saves or stops at a bad record, once the guard and the class
   * lookup pass: the rows outside the (c, d) slot stay at the front, in order,
   * and only a row keyed on `d` by a processed student can change, and only in
   * its status; every row after them is a new row of the slot.
   */
  lemma PostKeepsOtherSlots(t: Table, classes: seq<ClassRow>, students: seq<StudentRow>, req: SaveRequest,
                            now: nat)
    requires KeysUnique(t.rows)
    requires WellFormed(req) && ClassExists(classes, req.className.value)
    ensures var c, d, recs := req.className.value, req.date.value, req.records.value;
      var done := recs[..Processed(students, c, recs)];
      var rows := Post(t, classes, students, req, now).table.rows;
      var cl := ClearSlot(t.rows, c, d);
      KeysUnique(rows) && |cl| <= |rows| &&
      (forall k :: 0 <= k < |cl| ==> FactOf(rows[k]).(status := cl[k].status) == FactOf(cl[k])) &&
      (forall k :: 0 <= k < |cl| && (cl[k].date != d || LastGiven(done, cl[k].studentId).None?) ==>
         FactOf(rows[k]) == FactOf(cl[k])) &&
      (forall k :: |cl| <= k < |rows| ==> InSlot(rows[k], c, d))
  {
    var c, d, recs := req.className.value, req.date.value, req.records.value;
    var done := recs[..Processed(students, c, recs)];
    var cl := ClearSlot(t.rows, c, d);
    PostShape(t, classes, students, req, now);
    forall k | 0 <= k < |cl| && (cl[k].date != d || LastGiven(done, cl[k].studentId).None?)
      ensures Facts(Post(t, classes, students, req, now).table.rows)[k] == FactOf(cl[k])
    {
      MarksLast(students, c, done, cl[k].studentId);
    }
  }

  /**
   * Nothing of the (c, d) slot survives from before the call: each row in it was
   * written by a processed record and has the last status given for its student.
   */
  lemma PostSlotFromRecords(t: Table, classes: seq<ClassRow>, students: seq<StudentRow>, req: SaveRequest,
                            now: nat)
    requires KeysUnique(t.rows)
    requires WellFormed(req) && ClassExists(classes, req.className.value)
    ensures var c, d, recs := req.className.value, req.date.value, req.records.value;
      var done := recs[..Processed(students, c, recs)];
      var rows := Post(t, classes, students, req, now).table.rows;
      forall k :: 0 <= k < |rows| && InSlot(rows[k], c, d) ==>
        LastGiven(done, rows[k].studentId) == Some(AttendanceStatusName(rows[k].status))
  {
    var c, d, recs := req.className.value, req.date.value, req.records.value;
    var done := recs[..Processed(students, c, recs)];
    var rows := Post(t, classes, students, req, now).table.rows;
    PostShape(t, classes, students, req, now);
    forall k | 0 <= k < |rows| && InSlot(rows[k], c, d)
      ensures LastGiven(done, rows[k].studentId) == Some(AttendanceStatusName(rows[k].status))
    {
      assert Facts(rows)[k] == FactOf(rows[k]);
      MarksLast(students, c, done, rows[k].studentId);
    }
  }

  /**
   * No rollback: every record processed before the call returned, even one that
   * returns 400 on a later record, has its upsert in place, with the last status
   * given for its student.
   */
  lemma PostKeepsUpserts(t: Table, classes: seq<ClassRow>, students: seq<StudentRow>, req: SaveRequest,
                         now: nat)
    requires KeysUnique(t.rows)
    requires WellFormed(req) && ClassExists(classes, req.className.value)
    ensures var c, d, recs := req.className.value, req.date.value, req.records.value;
      var done := recs[..Processed(students, c, recs)];
      var rows := Post(t, classes, students, req, now).table.rows;
      forall j :: 0 <= j < |done| ==> HasLastRow(rows, d, done, done[j].studentId)
  {
    var c, d, recs := req.className.value, req.date.value, req.records.value;
    var done := recs[..Processed(students, c, recs)];
    var rows := Post(t, classes, students, req, now).table.rows;
    PostMarkedRows(t, classes, students, req, now);
    forall j | 0 <= j < |done|
      ensures HasLastRow(rows, d, done, done[j].studentId)
    {
      RowForRecord(rows, students, c, d, done, j);
    }
  }

  /** Some row of `rows` keyed on (sid, d) carries the last status `recs` gives for `sid`. */
  ghost predicate HasLastRow(rows: seq<AttendanceRow>, d: string, recs: seq<RecordInput>, sid: nat) {
    exists k :: 0 <= k < |rows| && rows[k].studentId == sid && rows[k].date == d &&
      LastGiven(recs, sid) == Some(AttendanceStatusName(rows[k].status))
  }

  lemma PostMarkedRows(t: Table, classes: seq<ClassRow>, students: seq<StudentRow>, req: SaveRequest, now: nat)
    requires KeysUnique(t.rows)
    requires WellFormed(req) && ClassExists(classes, req.className.value)
    ensures var c, d, recs := req.className.value, req.date.value, req.records.value;
      var ms := Marks(students, c, recs[..Processed(students, c, recs)]);
      forall sid :: Marked(ms, sid) ==> MarkedFact(Facts(Post(t, classes, students, req, now).table.rows), ms, sid, d)
  {
    PostShape(t, classes, students, req, now);
  }

  lemma RowForRecord(rows: seq<AttendanceRow>, students: seq<StudentRow>, c: string, d: string,
                     done: seq<RecordInput>, j: nat)
    requires forall k :: 0 <= k < |done| ==> CheckRecord(students, c, done[k]).Ok?
    requires j < |done|
    requires forall sid :: Marked(Marks(students, c, done), sid) ==>
               MarkedFact(Facts(rows), Marks(students, c, done), sid, d)
    ensures HasLastRow(rows, d, done, done[j].studentId)
  {
    var ms, f := Marks(students, c, done), Facts(rows);
    MarksMarked(students, c, done, j);
    MarksLast(students, c, done, done[j].studentId);
    var k :| 0 <= k < |f| && Keyed(f[k], done[j].studentId, d) && LastMark(ms, done[j].studentId) == Some(f[k].status);
    assert rows[k].studentId == done[j].studentId && rows[k].date == d;
  }

  /**
   * On 200, provided no row of another class records one of these students on
   * that date, the (c, d) slot holds exactly one row per distinct student in the
   * records, with the last status given for it, and every row outside the slot
   * is as it was.
   */
  lemma PostSavedSlot(t: Table, classes: seq<ClassRow>, students: seq<StudentRow>, req: SaveRequest, now: nat)
    requires KeysUnique(t.rows)
    requires Post(t, classes, students, req, now).response.Saved?
    requires forall k ::
               (0 <= k < |t.rows| && t.rows[k].date == req.date.value && t.rows[k].className != req.className.value)
               ==> LastGiven(req.records.value, t.rows[k].studentId).None?
    ensures SavedSlot(Post(t, classes, students, req, now).table.rows,
                      ClearSlot(t.rows, req.className.value, req.date.value), req.records.value,
                      req.className.value, req.date.value)
  {
    SavedRun(t, classes, students, req, now);
    SavedSlotRows(t.rows, Post(t, classes, students, req, now).table.rows,
                  ClearSlot(t.rows, req.className.value, req.date.value), req.records.value,
                  req.className.value, req.date.value);
  }

  /**
   * The (c, d) slot of `rows` holds exactly one row per distinct student of
   * `recs`, with the last status given for it, and the rows `cl` that the delete
   * kept are the first rows of `rows`, unchanged but for id and timestamp.
   */
  ghost predicate SavedSlot(rows: seq<AttendanceRow>, cl: seq<AttendanceRow>, recs: seq<RecordInput>,
                            c: string, d: string) {
    (forall k :: 0 <= k < |rows| && InSlot(rows[k], c, d) ==>
       LastGiven(recs, rows[k].studentId) == Some(AttendanceStatusName(rows[k].status))) &&
    (forall j :: 0 <= j < |recs| ==> HasSlotRow(rows, c, d, recs[j].studentId)) &&
    (forall a, b :: 0 <= a < b < |rows| && InSlot(rows[a], c, d) && InSlot(rows[b], c, d) ==>
       rows[a].studentId != rows[b].studentId) &&
    |cl| <= |rows| && (forall k :: 0 <= k < |cl| ==> FactOf(rows[k]) == FactOf(cl[k]))
  }

  /** What `PostKeepsOtherSlots`, `PostSlotFromRecords` and `PostKeepsUpserts` say of a run that processed every record. */
  lemma SavedRun(t: Table, classes: seq<ClassRow>, students: seq<StudentRow>, req: SaveRequest, now: nat)
    requires KeysUnique(t.rows)
    requires Post(t, classes, students, req, now).response.Saved?
    ensures RunShape(Post(t, classes, students, req, now).table.rows,
                     ClearSlot(t.rows, req.className.value, req.date.value), req.records.value,
                     req.className.value, req.date.value)
  {
    var c, recs := req.className.value, req.records.value;
    assert Processed(students, c, recs) == |recs|;
    assert recs[..|recs|] == recs;
    PostKeepsOtherSlots(t, classes, students, req, now);
    PostSlotFromRecords(t, classes, students, req, now);
    PostKeepsUpserts(t, classes, students, req, now);
  }

  /** `PostSavedSlot` read off the three facts about the table a complete run leaves. */
  /** The table a run that processed every record of `recs` leaves, against the cleared table `cl`. */
  ghost predicate RunShape(rows: seq<AttendanceRow>, cl: seq<AttendanceRow>, recs: seq<RecordInput>,
                           c: string, d: string) {
    KeysUnique(rows) && |cl| <= |rows| &&
    (forall k :: |cl| <= k < |rows| ==> InSlot(rows[k], c, d)) &&
    (forall k :: 0 <= k < |cl| && (cl[k].date != d || LastGiven(recs, cl[k].studentId).None?) ==>
       FactOf(rows[k]) == FactOf(cl[k])) &&
    (forall k :: 0 <= k < |rows| && InSlot(rows[k], c, d) ==>
       LastGiven(recs, rows[k].studentId) == Some(AttendanceStatusName(rows[k].status))) &&
    (forall j :: 0 <= j < |recs| ==> HasLastRow(rows, d, recs, recs[j].studentId))
  }

  /** Some row of the (c, d) slot belongs to student `sid`. */
  ghost predicate HasSlotRow(rows: seq<AttendanceRow>, c: string, d: string, sid: nat) {
    exists k :: 0 <= k < |rows| && InSlot(rows[k], c, d) && rows[k].studentId == sid
  }

  lemma SavedSlotRows(before: seq<AttendanceRow>, rows: seq<AttendanceRow>, cl: seq<AttendanceRow>,
                      recs: seq<RecordInput>, c: string, d: string)
    requires RunShape(rows, cl, recs, c, d)
    requires forall k :: 0 <= k < |cl| ==> cl[k] in before && !InSlot(cl[k], c, d)
    requires forall k :: (0 <= k < |before| && before[k].date == d && before[k].className != c)
               ==> LastGiven(recs, before[k].studentId).None?
    ensures SavedSlot(rows, cl, recs, c, d)
  {
    forall k | 0 <= k < |cl|
      ensures cl[k].date != d || LastGiven(recs, cl[k].studentId).None?
    {
      var i :| 0 <= i < |before| && before[i] == cl[k];
    }
    forall k | 0 <= k < |cl| && rows[k].date == d
      ensures LastGiven(recs, rows[k].studentId).None?
    {
      assert FactOf(rows[k]) == FactOf(cl[k]);
    }
    forall j | 0 <= j < |recs|
      ensures HasSlotRow(rows, c, d, recs[j].studentId)
    {
      var k :| 0 <= k < |rows| && rows[k].studentId == recs[j].studentId && rows[k].date == d &&
               LastGiven(recs, recs[j].studentId) == Some(AttendanceStatusName(rows[k].status));
      assert k >= |cl|;
      assert InSlot(rows[k], c, d);
    }
    forall a, b | 0 <= a < b < |rows| && InSlot(rows[a], c, d) && InSlot(rows[b], c, d)
      ensures rows[a].studentId != rows[b].studentId
    {
      assert !SameKey(rows[a], rows[b]);
    }
  }

  /** An empty `records` array succeeds and simply clears the (c, d) slot. */
  lemma PostEmptyClears(t: Table, classes: seq<ClassRow>, students: seq<StudentRow>, req: SaveRequest, now: nat)
    requires WellFormed(req) && ClassExists(classes, req.className.value) && req.records.value == []
    ensures Post(t, classes, students, req, now) ==
            SaveOutcome(Table(ClearSlot(t.rows, req.className.value, req.date.value), t.nextId), Saved)
  {
  }

  /**
   * Repeating a successful request succeeds again and leaves the same facts:
   * only the ids and timestamps of the rewritten rows differ.
   */
  lemma PostIdempotent(t: Table, classes: seq<ClassRow>, students: seq<StudentRow>, req: SaveRequest,
                       now1: nat, now2: nat)
    requires KeysUnique(t.rows)
    requires Post(t, classes, students, req, now1).response.Saved?
    ensures var o1 := Post(t, classes, students, req, now1);
      var o2 := Post(o1.table, classes, students, req, now2);
      o2.response.Saved? && Facts(o2.table.rows) == Facts(o1.table.rows)
  {
    var c, d, recs := req.className.value, req.date.value, req.records.value;
    var o1 := Post(t, classes, students, req, now1);
    var ms := Marks(students, c, recs[..Processed(students, c, recs)]);
    var cl := ClearSlot(t.rows, c, d);
    PostClosedForm(t, classes, students, req, now1);
    PostClosedForm(o1.table, classes, students, req, now2);
    ClearSlotKeysUnique(t.rows, c, d);
    FactsKeysUnique(cl);
    FactsOfClearSlot(o1.table.rows, c, d);
    ReplayIdempotent(Facts(cl), ms, c, d);
  }

  /**
   * Saving a student into class c on a date for which an older row records that
   * student under another class does not move the row: the upsert only rewrites
   * its status, so the row keeps its old class and name, and the (c, d) slot
   * gets no row for that student.
   */
  lemma CrossClassKeepsOldClass(t: Table, classes: seq<ClassRow>, students: seq<StudentRow>, req: SaveRequest,
                                now: nat, i: nat)
    requires KeysUnique(t.rows)
    requires Post(t, classes, students, req, now).response.Saved?
    requires i < |t.rows| && t.rows[i].date == req.date.value && t.rows[i].className != req.className.value
    requires LastGiven(req.records.value, t.rows[i].studentId).Some?
    ensures var c, d, recs := req.className.value, req.date.value, req.records.value;
      var rows := Post(t, classes, students, req, now).table.rows;
      var old_ := t.rows[i];
      (exists k :: 0 <= k < |rows| && rows[k].studentId == old_.studentId && rows[k].date == d &&
         rows[k].className == old_.className && rows[k].studentName == old_.studentName &&
         LastGiven(recs, old_.studentId) == Some(AttendanceStatusName(rows[k].status))) &&
      (forall k :: 0 <= k < |rows| && InSlot(rows[k], c, d) ==> rows[k].studentId != old_.studentId)
  {
    var c, d, recs := req.className.value, req.date.value, req.records.value;
    var rows := Post(t, classes, students, req, now).table.rows;
    var sid := t.rows[i].studentId;
    var cl := ClearSlot(t.rows, c, d);
    assert Processed(students, c, recs) == |recs|;
    assert recs[..|recs|] == recs;
    PostKeepsOtherSlots(t, classes, students, req, now);
    PostKeepsUpserts(t, classes, students, req, now);
    assert t.rows[i] in cl;
    var i' :| 0 <= i' < |cl| && cl[i'] == t.rows[i];
    var j :| 0 <= j < |recs| && recs[j].studentId == sid;
    KeptRowRewritten(rows, cl, i', c, recs);
  }

  lemma KeptRowRewritten(rows: seq<AttendanceRow>, cl: seq<AttendanceRow>, i: nat, c: string,
                         recs: seq<RecordInput>)
    requires KeysUnique(rows) && i < |cl| <= |rows| && cl[i].className != c
    requires FactOf(rows[i]).(status := cl[i].status) == FactOf(cl[i])
    requires HasLastRow(rows, cl[i].date, recs, cl[i].studentId)
    ensures exists k :: 0 <= k < |rows| && rows[k].studentId == cl[i].studentId && rows[k].date == cl[i].date &&
              rows[k].className == cl[i].className && rows[k].studentName == cl[i].studentName &&
              LastGiven(recs, cl[i].studentId) == Some(AttendanceStatusName(rows[k].status))
    ensures forall k :: 0 <= k < |rows| && InSlot(rows[k], c, cl[i].date) ==> rows[k].studentId != cl[i].studentId
  {
    var k :| 0 <= k < |rows| && rows[k].studentId == cl[i].studentId && rows[k].date == cl[i].date &&
             LastGiven(recs, cl[i].studentId) == Some(AttendanceStatusName(rows[k].status));
    OnlyRowWithKey(rows, i);
  }

  /** Under the unique key, a row is the only one with its (student_id, date). */
  lemma OnlyRowWithKey(rows: seq<AttendanceRow>, i: nat)
    requires KeysUnique(rows) && i < |rows|
    ensures forall k :: 0 <= k < |rows| && SameKey(rows[k], rows[i]) ==> k == i
  {
    forall k | 0 <= k < |rows| && k != i
      ensures !SameKey(rows[k], rows[i])
    {
      if k < i {
        assert !SameKey(rows[k], rows[i]);
      } else {
        assert !SameKey(rows[i], rows[k]);
      }
    }
  }

  // ---------------------------------------------------------------------
  // A concrete day: two students of "Mathematics 101" and one of "Physics".

  function ScenarioClasses(): seq<ClassRow> {
    [ClassRow(1, "Mathematics 101", "Dr. Smith", None, 1)]
  }

  function ScenarioStudents(): seq<StudentRow> {
    [StudentRow(1, "Ann", "Mathematics 101", None, Active, 1),
     StudentRow(2, "Ben", "Mathematics 101", None, Active, 2),
     StudentRow(3, "Cal", "Physics", None, Active, 3)]
  }

  function ScenarioRequest(recs: seq<RecordInput>): SaveRequest {
    SaveRequest(Some("Mathematics 101"), Some("2024-01-15"), Some(recs))
  }

  /** Marking Ann present and Ben absent on an empty table writes those two rows. */
  lemma ScenarioFirstSave()
    ensures Post(Table([], 1), ScenarioClasses(), ScenarioStudents(),
                 ScenarioRequest([RecordInput(1, "Ann", "Present"), RecordInput(2, "Ben", "Absent")]), 10)
            == SaveOutcome(Table([AttendanceRow(1, 1, "Ann", "Mathematics 101", "2024-01-15", Present, 10),
                                  AttendanceRow(2, 2, "Ben", "Mathematics 101", "2024-01-15", Absent, 10)], 3),
                           Saved)
  {
    var recs := [RecordInput(1, "Ann", "Present"), RecordInput(2, "Ben", "Absent")];
    assert ClassExists(ScenarioClasses(), "Mathematics 101") by {
      assert ScenarioClasses()[0].name == "Mathematics 101";
    }
    ScenarioFirstMarks();
    ScenarioFirstUpserts();
    assert recs[..|recs|] == recs;
    assert ClearSlot([], "Mathematics 101", "2024-01-15") == [];
  }

  lemma ScenarioFirstMarks()
    ensures var recs := [RecordInput(1, "Ann", "Present"), RecordInput(2, "Ben", "Absent")];
      FirstInvalid(ScenarioStudents(), "Mathematics 101", recs) == None &&
      Marks(ScenarioStudents(), "Mathematics 101", recs) == [Mark(1, "Ann", Present), Mark(2, "Ben", Absent)]
  {
    var students := ScenarioStudents();
    var recs := [RecordInput(1, "Ann", "Present"), RecordInput(2, "Ben", "Absent")];
    assert Enrolled(students, 1, "Mathematics 101") by {
      assert students[0].id == 1 && students[0].className == "Mathematics 101";
    }
    assert Enrolled(students, 2, "Mathematics 101") by {
      assert students[1].id == 2 && students[1].className == "Mathematics 101";
    }
    FirstInvalidNone(students, "Mathematics 101", recs);
  }

  lemma ScenarioFirstUpserts()
    ensures UpsertAll(Table([], 1), [Mark(1, "Ann", Present), Mark(2, "Ben", Absent)],
                      "Mathematics 101", "2024-01-15", 10)
            == Table([AttendanceRow(1, 1, "Ann", "Mathematics 101", "2024-01-15", Present, 10),
                      AttendanceRow(2, 2, "Ben", "Mathematics 101", "2024-01-15", Absent, 10)], 3)
  {
    var ms := [Mark(1, "Ann", Present), Mark(2, "Ben", Absent)];
    var c, d := "Mathematics 101", "2024-01-15";
    assert ms[..1] == [Mark(1, "Ann", Present)] && ms[..1][..0] == [];
    var t1 := Table([AttendanceRow(1, 1, "Ann", c, d, Present, 10)], 2);
    assert UpsertAll(Table([], 1), ms[..1], c, d, 10) == t1;
    assert FindKey(t1.rows, 2, d) == None by {
      assert t1.rows[1..] == [];
    }
  }

  /**
   * Then submitting Cal, who is in another class, for the same day is rejected,
   * and the rejection comes after the delete: Ann's and Ben's rows are gone.
   */
  lemma ScenarioRejectionAfterDelete()
    ensures Post(Table([AttendanceRow(1, 1, "Ann", "Mathematics 101", "2024-01-15", Present, 10),
                        AttendanceRow(2, 2, "Ben", "Mathematics 101", "2024-01-15", Absent, 10)], 3),
                 ScenarioClasses(), ScenarioStudents(),
                 ScenarioRequest([RecordInput(3, "Cal", "Present")]), 20)
            == SaveOutcome(Table([], 3), Rejected(NotInClass("Cal")))
  {
    var students := ScenarioStudents();
    assert ClassExists(ScenarioClasses(), "Mathematics 101") by {
      assert ScenarioClasses()[0].name == "Mathematics 101";
    }
    assert !Enrolled(students, 3, "Mathematics 101");
    var rows := [AttendanceRow(1, 1, "Ann", "Mathematics 101", "2024-01-15", Present, 10),
                 AttendanceRow(2, 2, "Ben", "Mathematics 101", "2024-01-15", Absent, 10)];
    assert ClearSlot(rows, "Mathematics 101", "2024-01-15") == [] by {
      FilterKeepsNone(rows, (x: AttendanceRow) => !InSlot(x, "Mathematics 101", "2024-01-15"));
    }
    var recs := [RecordInput(3, "Cal", "Present")];
    assert recs[..0] == [];
  }
}
