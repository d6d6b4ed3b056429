/**
 * What POST /api/attendance does to the attendance table, seen through the
 * facts the rows record (student, name, class, date, status) with the SERIAL id
 * and the `created_at` timestamp dropped: both change on every save, so
 * "the same table" can only mean the same facts.
 *
 * The central result is a closed form of the upsert loop: upserting marks into
 * a table whose key is unique restatuses the rows already keyed by a marked
 * student on that date, in place, and appends one fresh row per other marked
 * student, in order of first mention.
 */
module AttendanceFacts {
  import opened Wrappers
  import opened Seqs
  import opened Types
  import opened Tables
  import opened AttendanceRoute

  datatype Fact = Fact(studentId: nat, studentName: string, className: string, date: string,
                       status: AttendanceStatus)

  function FactOf(r: AttendanceRow): Fact {
    Fact(r.studentId, r.studentName, r.className, r.date, r.status)
  }

  function Facts(rows: seq<AttendanceRow>): (fs: seq<Fact>)
    ensures |fs| == |rows|
    ensures forall k :: 0 <= k < |rows| ==> fs[k] == FactOf(rows[k])
  {
    seq(|rows|, k requires 0 <= k < |rows| => FactOf(rows[k]))
  }

  predicate Keyed(f: Fact, sid: nat, d: string) {
    f.studentId == sid && f.date == d
  }

  /** The unique key, on facts. */
  predicate FactKeysUnique(fs: seq<Fact>) {
    forall i, j :: 0 <= i < j < |fs| ==> !Keyed(fs[j], fs[i].studentId, fs[i].date)
  }

  predicate HasKey(fs: seq<Fact>, sid: nat, d: string) {
    exists k :: 0 <= k < |fs| && Keyed(fs[k], sid, d)
  }

  lemma FactsKeysUnique(rows: seq<AttendanceRow>)
    ensures KeysUnique(rows) <==> FactKeysUnique(Facts(rows))
  {
    var fs := Facts(rows);
    if KeysUnique(rows) {
      forall i, j | 0 <= i < j < |fs|
        ensures !Keyed(fs[j], fs[i].studentId, fs[i].date)
      {
        assert !SameKey(rows[i], rows[j]);
      }
    }
    if FactKeysUnique(fs) {
      forall i, j | 0 <= i < j < |rows|
        ensures !SameKey(rows[i], rows[j])
      {
        assert !Keyed(fs[j], fs[i].studentId, fs[i].date);
      }
    }
  }

  /** Position of the first fact keyed (sid, d), if any. */
  function FactIndex(fs: seq<Fact>, sid: nat, d: string): (r: Option<nat>)
    ensures r.Some? ==> r.value < |fs| && Keyed(fs[r.value], sid, d)
    ensures r.Some? ==> forall k :: 0 <= k < r.value ==> !Keyed(fs[k], sid, d)
    ensures r.None? <==> !HasKey(fs, sid, d)
  {
    if fs == [] then None
    else if Keyed(fs[0], sid, d) then Some(0)
    else match FactIndex(fs[1..], sid, d)
      case None => (assert forall k :: 1 <= k < |fs| ==> fs[k] == fs[1..][k - 1]; None)
      case Some(k) => Some(k + 1)
  }

  /** The first matching position is determined by the keys alone. */
  lemma FactIndexIs(fs: seq<Fact>, sid: nat, d: string, i: nat)
    requires i < |fs| && Keyed(fs[i], sid, d)
    requires forall k :: 0 <= k < i ==> !Keyed(fs[k], sid, d)
    ensures FactIndex(fs, sid, d) == Some(i)
  {
  }

  /** The upsert on facts: restatus the row keyed (sid, d), or append a new one. */
  function UpsertF(fs: seq<Fact>, m: Mark, c: string, d: string): seq<Fact> {
    match FactIndex(fs, m.studentId, d)
    case Some(i) => fs[i := fs[i].(status := m.status)]
    case None => fs + [Fact(m.studentId, m.studentName, c, d, m.status)]
  }

  function UpsertAllF(fs: seq<Fact>, ms: seq<Mark>, c: string, d: string): seq<Fact> {
    if ms == [] then fs
    else UpsertF(UpsertAllF(fs, ms[..|ms| - 1], c, d), ms[|ms| - 1], c, d)
  }

  lemma FindKeyFacts(rows: seq<AttendanceRow>, sid: nat, d: string)
    ensures FindKey(rows, sid, d) == FactIndex(Facts(rows), sid, d)
  {
    var fs := Facts(rows);
    match FindKey(rows, sid, d)
    case Some(i) =>
      FactIndexIs(fs, sid, d, i);
    case None =>
      assert !HasKey(fs, sid, d);
  }

  /** Dropping ids and timestamps commutes with one upsert. */
  lemma FactsOfUpsert(t: Table, m: Mark, c: string, d: string, now: nat)
    ensures Facts(Upsert(t, m, c, d, now).rows) == UpsertF(Facts(t.rows), m, c, d)
  {
    FindKeyFacts(t.rows, m.studentId, d);
  }

  /** ... and with the whole upsert loop. */
  lemma {:induction false} FactsOfUpsertAll(t: Table, ms: seq<Mark>, c: string, d: string, now: nat)
    ensures Facts(UpsertAll(t, ms, c, d, now).rows) == UpsertAllF(Facts(t.rows), ms, c, d)
  {
    if ms != [] {
      FactsOfUpsertAll(t, ms[..|ms| - 1], c, d, now);
      FactsOfUpsert(UpsertAll(t, ms[..|ms| - 1], c, d, now), ms[|ms| - 1], c, d, now);
    }
  }

  // ---------------------------------------------------------------------
  // The closed form.

  predicate Marked(ms: seq<Mark>, sid: nat) {
    exists k :: 0 <= k < |ms| && ms[k].studentId == sid
  }

  /** The status the last mark for `sid` gives, if any mark does. */
  function LastMark(ms: seq<Mark>, sid: nat): (r: Option<AttendanceStatus>)
    ensures r.Some? <==> Marked(ms, sid)
    ensures r.Some? ==> exists k :: 0 <= k < |ms| && ms[k].studentId == sid && ms[k].status == r.value &&
                           forall j :: k < j < |ms| ==> ms[j].studentId != sid
  {
    if ms == [] then None
    else if ms[|ms| - 1].studentId == sid then Some(ms[|ms| - 1].status)
    else
      var r := LastMark(ms[..|ms| - 1], sid);
      assert forall k :: 0 <= k < |ms| - 1 ==> ms[..|ms| - 1][k] == ms[k];
      r
  }

  /** Every fact keyed by a marked student on `d` takes that student's last status. */
  function Restatus(fs: seq<Fact>, d: string, ms: seq<Mark>): (r: seq<Fact>)
    ensures |r| == |fs|
    ensures forall k :: 0 <= k < |fs| ==> r[k].(status := fs[k].status) == fs[k]
  {
    seq(|fs|, k requires 0 <= k < |fs| =>
      if fs[k].date == d && LastMark(ms, fs[k].studentId).Some?
      then fs[k].(status := LastMark(ms, fs[k].studentId).value) else fs[k])
  }

  /** The marks for students with no fact keyed on `d`. */
  function Unkeyed(fs: seq<Fact>, d: string, ms: seq<Mark>): seq<Mark> {
    Filter(ms, (m: Mark) => !HasKey(fs, m.studentId, d))
  }

  lemma UpsertFInPrefix(a: seq<Fact>, b: seq<Fact>, m: Mark, c: string, d: string)
    requires HasKey(a, m.studentId, d)
    ensures UpsertF(a + b, m, c, d) == UpsertF(a, m, c, d) + b
  {
    var i := FactIndex(a, m.studentId, d).value;
    FactIndexIs(a + b, m.studentId, d, i);
  }

  lemma UpsertFPastPrefix(a: seq<Fact>, b: seq<Fact>, m: Mark, c: string, d: string)
    requires !HasKey(a, m.studentId, d)
    ensures UpsertF(a + b, m, c, d) == a + UpsertF(b, m, c, d)
  {
    match FactIndex(b, m.studentId, d)
    case Some(i) =>
      FactIndexIs(a + b, m.studentId, d, |a| + i);
    case None =>
      assert !HasKey(a + b, m.studentId, d) by {
        forall k | 0 <= k < |a + b|
          ensures !Keyed((a + b)[k], m.studentId, d)
        {
          if k >= |a| {
            assert (a + b)[k] == b[k - |a|];
          }
        }
      }
  }

  /** Restatusing keeps every key, so it keeps the first positions of keys. */
  lemma RestatusKeys(fs: seq<Fact>, d: string, ms: seq<Mark>, sid: nat)
    ensures HasKey(Restatus(fs, d, ms), sid, d) <==> HasKey(fs, sid, d)
    ensures FactIndex(Restatus(fs, d, ms), sid, d) == FactIndex(fs, sid, d)
  {
    var r := Restatus(fs, d, ms);
    assert forall k :: 0 <= k < |fs| ==> (Keyed(r[k], sid, d) <==> Keyed(fs[k], sid, d));
    if HasKey(fs, sid, d) {
      var i := FactIndex(fs, sid, d).value;
      FactIndexIs(r, sid, d, i);
    }
  }

  lemma UnkeyedSnoc(fs: seq<Fact>, d: string, ms: seq<Mark>, m: Mark)
    ensures Unkeyed(fs, d, ms + [m]) ==
            if HasKey(fs, m.studentId, d) then Unkeyed(fs, d, ms) else Unkeyed(fs, d, ms) + [m]
  {
    FilterAppend(ms, [m], (x: Mark) => !HasKey(fs, x.studentId, d));
  }

  lemma LastMarkSnoc(ms: seq<Mark>, m: Mark, sid: nat)
    ensures LastMark(ms + [m], sid) == if m.studentId == sid then Some(m.status) else LastMark(ms, sid)
  {
    assert (ms + [m])[..|ms|] == ms;
  }

  /** A mark for a student already keyed on `d` restatuses that one fact. */
  lemma RestatusStepKeyed(fs: seq<Fact>, d: string, ms: seq<Mark>, m: Mark, c: string)
    requires FactKeysUnique(fs) && HasKey(fs, m.studentId, d)
    ensures UpsertF(Restatus(fs, d, ms), m, c, d) == Restatus(fs, d, ms + [m])
  {
    RestatusKeys(fs, d, ms, m.studentId);
    var i := FactIndex(fs, m.studentId, d).value;
    var r0, r := Restatus(fs, d, ms), Restatus(fs, d, ms + [m]);
    forall k | 0 <= k < |fs|
      ensures r0[i := r0[i].(status := m.status)][k] == r[k]
    {
      LastMarkSnoc(ms, m, fs[k].studentId);
      if k < i {
        assert !Keyed(fs[k], m.studentId, d);
      } else if k > i {
        assert !Keyed(fs[k], fs[i].studentId, fs[i].date);
      }
    }
  }

  /** A mark for a student not keyed on `d` restatuses nothing. */
  lemma RestatusStepFresh(fs: seq<Fact>, d: string, ms: seq<Mark>, m: Mark)
    requires !HasKey(fs, m.studentId, d)
    ensures Restatus(fs, d, ms) == Restatus(fs, d, ms + [m])
  {
    var r0, r := Restatus(fs, d, ms), Restatus(fs, d, ms + [m]);
    forall k | 0 <= k < |fs|
      ensures r0[k] == r[k]
    {
      LastMarkSnoc(ms, m, fs[k].studentId);
      assert !Keyed(fs[k], m.studentId, d);
    }
  }

  /**
   * The closed form of the upsert loop over a table whose key is unique: the
   * existing facts are restatused in place and the marks for students without a
   * fact keyed on `d` build the tail, as they would on an empty table.
   */
  lemma {:induction false} UpsertAllClosedForm(fs: seq<Fact>, ms: seq<Mark>, c: string, d: string)
    requires FactKeysUnique(fs)
    ensures UpsertAllF(fs, ms, c, d) == Restatus(fs, d, ms) + UpsertAllF([], Unkeyed(fs, d, ms), c, d)
  {
    if ms == [] {
      assert Restatus(fs, d, ms) == fs;
      assert Unkeyed(fs, d, ms) == [];
    } else {
      var pre, m := ms[..|ms| - 1], ms[|ms| - 1];
      assert ms == pre + [m];
      UpsertAllClosedForm(fs, pre, c, d);
      var r0, u0 := Restatus(fs, d, pre), Unkeyed(fs, d, pre);
      var g0 := UpsertAllF([], u0, c, d);
      assert UpsertAllF(fs, ms, c, d) == UpsertF(r0 + g0, m, c, d);
      UnkeyedSnoc(fs, d, pre, m);
      RestatusKeys(fs, d, pre, m.studentId);
      if HasKey(fs, m.studentId, d) {
        UpsertFInPrefix(r0, g0, m, c, d);
        RestatusStepKeyed(fs, d, pre, m, c);
      } else {
        UpsertFPastPrefix(r0, g0, m, c, d);
        RestatusStepFresh(fs, d, pre, m);
        assert (u0 + [m])[..|u0|] == u0;
      }
    }
  }

  /** Upserting into facts whose key is unique keeps it unique. */
  lemma UpsertFKeysUnique(fs: seq<Fact>, m: Mark, c: string, d: string)
    requires FactKeysUnique(fs)
    ensures FactKeysUnique(UpsertF(fs, m, c, d))
  {
    var u := UpsertF(fs, m, c, d);
    assert forall k :: 0 <= k < |fs| ==> u[k].studentId == fs[k].studentId && u[k].date == fs[k].date;
  }

  /**
   * What upserting `ms` into an empty table leaves: one fact per marked student,
   * all of class `c` on `d`, each with that student's last status.
   */
  ghost predicate FreshShape(g: seq<Fact>, ms: seq<Mark>, c: string, d: string) {
    FactKeysUnique(g) &&
    (forall k :: 0 <= k < |g| ==>
       g[k].className == c && g[k].date == d && LastMark(ms, g[k].studentId) == Some(g[k].status)) &&
    (forall sid :: Marked(ms, sid) ==> HasKey(g, sid, d))
  }

  lemma FreshStepKeyed(g0: seq<Fact>, pre: seq<Mark>, m: Mark, c: string, d: string)
    requires FreshShape(g0, pre, c, d) && HasKey(g0, m.studentId, d)
    ensures FreshShape(UpsertF(g0, m, c, d), pre + [m], c, d)
  {
    var ms, g := pre + [m], UpsertF(g0, m, c, d);
    var i := FactIndex(g0, m.studentId, d).value;
    UpsertFKeysUnique(g0, m, c, d);
    forall k | 0 <= k < |g|
      ensures LastMark(ms, g[k].studentId) == Some(g[k].status)
    {
      LastMarkSnoc(pre, m, g[k].studentId);
      if k < i {
        assert !Keyed(g0[k], m.studentId, d);
      } else if k > i {
        assert !Keyed(g0[k], g0[i].studentId, g0[i].date);
      }
    }
    forall sid | Marked(ms, sid)
      ensures HasKey(g, sid, d)
    {
      if sid != m.studentId {
        var j :| 0 <= j < |ms| && ms[j].studentId == sid;
        assert pre[j] == ms[j] && Marked(pre, sid);
        var k :| 0 <= k < |g0| && Keyed(g0[k], sid, d);
        assert Keyed(g[k], sid, d);
      } else {
        assert Keyed(g[i], sid, d);
      }
    }
  }

  lemma FreshStepNew(g0: seq<Fact>, pre: seq<Mark>, m: Mark, c: string, d: string)
    requires FreshShape(g0, pre, c, d) && !HasKey(g0, m.studentId, d)
    ensures FreshShape(UpsertF(g0, m, c, d), pre + [m], c, d)
  {
    var ms, g := pre + [m], UpsertF(g0, m, c, d);
    UpsertFKeysUnique(g0, m, c, d);
    forall k | 0 <= k < |g|
      ensures LastMark(ms, g[k].studentId) == Some(g[k].status)
    {
      LastMarkSnoc(pre, m, g[k].studentId);
      if k < |g0| {
        assert !Keyed(g0[k], m.studentId, d);
      }
    }
    forall sid | Marked(ms, sid)
      ensures HasKey(g, sid, d)
    {
      if sid != m.studentId {
        var j :| 0 <= j < |ms| && ms[j].studentId == sid;
        assert pre[j] == ms[j] && Marked(pre, sid);
        var k :| 0 <= k < |g0| && Keyed(g0[k], sid, d);
        assert Keyed(g[k], sid, d);
      } else {
        assert Keyed(g[|g0|], sid, d);
      }
    }
  }

  /** The tail of the closed form has the fresh shape. */
  lemma {:induction false} FreshFacts(ms: seq<Mark>, c: string, d: string)
    ensures FreshShape(UpsertAllF([], ms, c, d), ms, c, d)
  {
    if ms != [] {
      var pre, m := ms[..|ms| - 1], ms[|ms| - 1];
      assert ms == pre + [m];
      FreshFacts(pre, c, d);
      var g0 := UpsertAllF([], pre, c, d);
      if HasKey(g0, m.studentId, d) {
        FreshStepKeyed(g0, pre, m, c, d);
      } else {
        FreshStepNew(g0, pre, m, c, d);
      }
    }
  }

  /** The delete of the (c, d) slot, on facts. */
  function ClearSlotF(fs: seq<Fact>, c: string, d: string): seq<Fact> {
    Filter(fs, (f: Fact) => !(f.className == c && f.date == d))
  }

  lemma {:induction false} FactsOfClearSlot(rows: seq<AttendanceRow>, c: string, d: string)
    ensures Facts(ClearSlot(rows, c, d)) == ClearSlotF(Facts(rows), c, d)
  {
    if rows != [] {
      FactsOfClearSlot(rows[1..], c, d);
      ClearSlotStep(rows, c, d);
      if !InSlot(rows[0], c, d) {
        FactsCons(rows[0], ClearSlot(rows[1..], c, d));
      }
    }
  }

  /** One step of both deletes: the head row is dropped or kept, and so is its fact. */
  lemma ClearSlotStep(rows: seq<AttendanceRow>, c: string, d: string)
    requires rows != []
    ensures InSlot(rows[0], c, d) ==>
              ClearSlot(rows, c, d) == ClearSlot(rows[1..], c, d) &&
              ClearSlotF(Facts(rows), c, d) == ClearSlotF(Facts(rows[1..]), c, d)
    ensures !InSlot(rows[0], c, d) ==>
              ClearSlot(rows, c, d) == [rows[0]] + ClearSlot(rows[1..], c, d) &&
              ClearSlotF(Facts(rows), c, d) == [FactOf(rows[0])] + ClearSlotF(Facts(rows[1..]), c, d)
  {
    assert Facts(rows)[1..] == Facts(rows[1..]);
  }

  lemma FactsCons(row: AttendanceRow, rows: seq<AttendanceRow>)
    ensures Facts([row] + rows) == [FactOf(row)] + Facts(rows)
  {
  }

  /** Dropping the marks of keyed students does not change an unkeyed student's last mark. */
  lemma {:induction false} LastMarkUnkeyed(fs: seq<Fact>, d: string, ms: seq<Mark>, sid: nat)
    requires !HasKey(fs, sid, d)
    ensures LastMark(Unkeyed(fs, d, ms), sid) == LastMark(ms, sid)
  {
    if ms != [] {
      var pre, m := ms[..|ms| - 1], ms[|ms| - 1];
      assert ms == pre + [m];
      LastMarkUnkeyed(fs, d, pre, sid);
      UnkeyedSnoc(fs, d, pre, m);
      LastMarkSnoc(pre, m, sid);
      LastMarkSnoc(Unkeyed(fs, d, pre), m, sid);
    }
  }

  /**
   * Reading the closed form after the slot (c, d) has been cleared: a fact of
   * (c, d) is one of the appended ones and carries its student's last status;
   * every marked student has a fact keyed on `d` with its last status; the
   * appended facts all belong to (c, d).
   */
  lemma ClosedFormShape(cf: seq<Fact>, ms: seq<Mark>, c: string, d: string)
    requires FactKeysUnique(cf)
    requires forall k :: 0 <= k < |cf| ==> !(cf[k].className == c && cf[k].date == d)
    ensures var f := Restatus(cf, d, ms) + UpsertAllF([], Unkeyed(cf, d, ms), c, d);
      (forall k :: |cf| <= k < |f| ==> f[k].className == c && f[k].date == d) &&
      (forall k :: 0 <= k < |f| && f[k].className == c && f[k].date == d ==>
         |cf| <= k && LastMark(ms, f[k].studentId) == Some(f[k].status)) &&
      (forall sid :: Marked(ms, sid) ==> MarkedFact(f, ms, sid, d))
  {
    var r, g := Restatus(cf, d, ms), UpsertAllF([], Unkeyed(cf, d, ms), c, d);
    var f := r + g;
    AppendedShape(cf, ms, c, d);
    MarkedHasFact(cf, ms, c, d);
    forall k | |cf| <= k < |f|
      ensures f[k].className == c && f[k].date == d && LastMark(ms, f[k].studentId) == Some(f[k].status)
    {
      assert f[k] == g[k - |cf|];
    }
    forall k | 0 <= k < |cf|
      ensures !(f[k].className == c && f[k].date == d)
    {
      assert f[k].(status := cf[k].status) == cf[k];
    }
  }

  /** The appended facts all belong to (c, d) and carry their student's last status. */
  lemma AppendedShape(cf: seq<Fact>, ms: seq<Mark>, c: string, d: string)
    ensures var g := UpsertAllF([], Unkeyed(cf, d, ms), c, d);
      forall k :: 0 <= k < |g| ==>
        g[k].className == c && g[k].date == d && LastMark(ms, g[k].studentId) == Some(g[k].status)
  {
    var u := Unkeyed(cf, d, ms);
    var g := UpsertAllF([], u, c, d);
    FreshFacts(u, c, d);
    forall k | 0 <= k < |g|
      ensures LastMark(ms, g[k].studentId) == Some(g[k].status)
    {
      var sid := g[k].studentId;
      var j :| 0 <= j < |u| && u[j].studentId == sid;
      assert !HasKey(cf, u[j].studentId, d);
      LastMarkUnkeyed(cf, d, ms, sid);
    }
  }

  /** Some fact is keyed (sid, d) and carries `sid`'s last status. */
  predicate MarkedFact(f: seq<Fact>, ms: seq<Mark>, sid: nat, d: string) {
    exists k :: 0 <= k < |f| && Keyed(f[k], sid, d) && LastMark(ms, sid) == Some(f[k].status)
  }

  /** Every marked student has a fact keyed on `d` with its last status, kept or appended. */
  lemma MarkedHasFact(cf: seq<Fact>, ms: seq<Mark>, c: string, d: string)
    ensures forall sid :: Marked(ms, sid) ==> MarkedFact(Restatus(cf, d, ms) + UpsertAllF([], Unkeyed(cf, d, ms), c, d), ms, sid, d)
  {
    var r, u := Restatus(cf, d, ms), Unkeyed(cf, d, ms);
    var g := UpsertAllF([], u, c, d);
    var f := r + g;
    forall sid | Marked(ms, sid)
      ensures MarkedFact(f, ms, sid, d)
    {
      if HasKey(cf, sid, d) {
        var i :| 0 <= i < |cf| && Keyed(cf[i], sid, d);
        assert Keyed(f[i], sid, d) && LastMark(ms, sid) == Some(f[i].status);
      } else {
        FreshFacts(u, c, d);
        var j :| 0 <= j < |ms| && ms[j].studentId == sid;
        assert ms[j] in u;
        LastMarkUnkeyed(cf, d, ms, sid);
        var k :| 0 <= k < |g| && Keyed(g[k], sid, d);
        assert f[|cf| + k] == g[k];
      }
    }
  }

  /** Restatusing twice with the same marks is restatusing once. */
  lemma RestatusTwice(fs: seq<Fact>, d: string, ms: seq<Mark>)
    ensures Restatus(Restatus(fs, d, ms), d, ms) == Restatus(fs, d, ms)
  {
    var r := Restatus(fs, d, ms);
    assert forall k :: 0 <= k < |fs| ==> r[k].studentId == fs[k].studentId && r[k].date == fs[k].date;
  }

  /**
   * Replaying the same marks on the table the replay produced, after clearing the
   * slot again, produces the same facts: the slot is rebuilt from the same marks
   * and the restatused rows already carry the last statuses.
   */
  lemma ReplayIdempotent(cf: seq<Fact>, ms: seq<Mark>, c: string, d: string)
    requires FactKeysUnique(cf)
    requires forall k :: 0 <= k < |cf| ==> !(cf[k].className == c && cf[k].date == d)
    ensures var f := Restatus(cf, d, ms) + UpsertAllF([], Unkeyed(cf, d, ms), c, d);
      var cf2 := ClearSlotF(f, c, d);
      cf2 == Restatus(cf, d, ms) &&
      Restatus(cf2, d, ms) + UpsertAllF([], Unkeyed(cf2, d, ms), c, d) == f
  {
    var r, g := Restatus(cf, d, ms), UpsertAllF([], Unkeyed(cf, d, ms), c, d);
    var p := (x: Fact) => !(x.className == c && x.date == d);
    FilterAppend(r, g, p);
    FilterKeepsAll(r, p);
    FreshFacts(Unkeyed(cf, d, ms), c, d);
    FilterKeepsNone(g, p);
    RestatusTwice(cf, d, ms);
    forall sid
      ensures HasKey(r, sid, d) == HasKey(cf, sid, d)
    {
      RestatusKeys(cf, d, ms, sid);
    }
    FilterCongruent(ms, (m: Mark) => !HasKey(r, m.studentId, d), (m: Mark) => !HasKey(cf, m.studentId, d));
  }
}
