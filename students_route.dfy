/**
 * app/api/students/route.ts: listing students, one class by name or all of
 * them newest first, and creating a student after three checks made in a
 * fixed order (name and class given, a known status, an existing class).
 */
module StudentsRoute {
  import opened Wrappers
  import opened Text
  import opened Seqs
  import opened Types
  import opened Tables

  // ---------------------------------------------------------------------
  // GET /api/students[?class=]

  /** `ORDER BY name ASC` */
  function ByName(a: StudentRow, b: StudentRow): bool {
    StrLe(a.name, b.name)
  }

  /** `ORDER BY created_at DESC` */
  function NewestFirst(a: StudentRow, b: StudentRow): bool {
    a.createdAt >= b.createdAt
  }

  lemma ByNameTotal()
    ensures TotalPreorder(ByName)
  {
    forall a: StudentRow, b: StudentRow
      ensures ByName(a, b) || ByName(b, a)
    {
      StrLeTotal(a.name, b.name);
    }
    forall a: StudentRow, b: StudentRow, c: StudentRow | ByName(a, b) && ByName(b, c)
      ensures ByName(a, c)
    {
      StrLeTrans(a.name, b.name, c.name);
    }
  }

  predicate InClass(s: StudentRow, c: string) {
    s.className == c
  }

  /**
   * The GET handler: with a non-empty `class` parameter, that class's students
   * by name; otherwise every student, newest first.
   */
  function GetStudents(rows: seq<StudentRow>, className: Option<string>): (r: seq<StudentRow>)
    ensures Truthy(className) ==>
              SortedBy(r, ByName) &&
              (forall k :: 0 <= k < |r| ==> r[k] in rows && r[k].className == className.value) &&
              (forall k :: 0 <= k < |rows| && rows[k].className == className.value ==> rows[k] in r) &&
              multiset(r) == multiset(Filter(rows, (s: StudentRow) => InClass(s, className.value)))
    ensures !Truthy(className) ==> SortedBy(r, NewestFirst) && multiset(r) == multiset(rows)
  {
    if Truthy(className) then
      var c := className.value;
      ByNameTotal();
      SortedSelection(rows, (s: StudentRow) => InClass(s, c), ByName);
      SortBy(Filter(rows, (s: StudentRow) => InClass(s, c)), ByName)
    else
      SortBySorted(rows, NewestFirst);
      SortBy(rows, NewestFirst)
  }

  // ---------------------------------------------------------------------
  // POST /api/students

  /** The parsed body; a field is `None` when it is absent. */
  datatype StudentRequest = StudentRequest(name: Option<string>, className: Option<string>,
                                           email: Option<string>, status: Option<string>)

  datatype StudentError = NameAndClassRequired | BadStatus | NoSuchClass

  datatype StudentResponse = StudentCreated(row: StudentRow) | StudentRejected(error: StudentError)

  /** 201 on success; every rejection of this handler is a 400. */
  function StudentStatusCode(r: StudentResponse): int {
    if r.StudentCreated? then 201 else 400
  }

  /** The status the request asks for: `status = 'Active'` applies when it is absent. */
  function RequestedStatus(req: StudentRequest): string {
    req.status.GetOr("Active")
  }

  /** The handler's checks, in order; the first that fails decides the error. */
  function CheckStudent(classes: seq<ClassRow>, req: StudentRequest): (r: Result<StudentStatus, StudentError>)
    ensures r == Err(NameAndClassRequired) <==> !Truthy(req.name) || !Truthy(req.className)
    ensures r == Err(BadStatus) <==>
              Truthy(req.name) && Truthy(req.className) &&
              RequestedStatus(req) != "Active" && RequestedStatus(req) != "Inactive"
    ensures r == Err(NoSuchClass) <==>
              Truthy(req.name) && Truthy(req.className) &&
              (RequestedStatus(req) == "Active" || RequestedStatus(req) == "Inactive") &&
              !ClassExists(classes, req.className.value)
    ensures r.Ok? ==> Truthy(req.name) && ClassExists(classes, req.className.value) &&
                      StudentStatusName(r.value) == RequestedStatus(req)
  {
    if !Truthy(req.name) || !Truthy(req.className) then Err(NameAndClassRequired)
    else match ParseStudentStatus(RequestedStatus(req))
      case None => Err(BadStatus)
      case Some(st) =>
        if !ClassExists(classes, req.className.value) then Err(NoSuchClass) else Ok(st)
  }

  /** The row `INSERT ... RETURNING *` gives back for an accepted request. */
  function NewStudent(req: StudentRequest, st: StudentStatus, id: nat, now: nat): StudentRow
    requires req.name.Some? && req.className.Some?
  {
    StudentRow(id, req.name.value, req.className.value, req.email, st, now)
  }

  /** The POST handler: the table gains one row exactly when every check passes. */
  method PostStudent(db: Database, req: StudentRequest, now: nat) returns (response: StudentResponse)
    requires db.Valid()
    modifies db
    ensures db.Valid()
    ensures db.classes == old(db.classes) && db.attendance == old(db.attendance)
    ensures db.nextClassId == old(db.nextClassId) && db.nextAttendanceId == old(db.nextAttendanceId)
    ensures CheckStudent(old(db.classes), req).Err? ==>
              response == StudentRejected(CheckStudent(old(db.classes), req).error) &&
              db.students == old(db.students) && db.nextStudentId == old(db.nextStudentId)
    ensures CheckStudent(old(db.classes), req).Ok? ==>
              var row := NewStudent(req, CheckStudent(old(db.classes), req).value, old(db.nextStudentId), now);
              response == StudentCreated(row) && db.students == old(db.students) + [row] &&
              db.nextStudentId == old(db.nextStudentId) + 1
  {
    match CheckStudent(db.classes, req)
    case Err(e) =>
      return StudentRejected(e);
    case Ok(st) =>
      var row := NewStudent(req, st, db.nextStudentId, now);
      StudentsReferencedGrow(db.attendance, db.students, [row]);
      db.students := db.students + [row];
      db.nextStudentId := db.nextStudentId + 1;
      return StudentCreated(row);
  }

  /**
   * A created student shows up in its class's listing and in the full listing,
   * and the full listing keeps every earlier student.
   */
  lemma CreatedStudentListed(rows: seq<StudentRow>, row: StudentRow)
    requires row.className != []
    ensures row in GetStudents(rows + [row], Some(row.className))
    ensures row in GetStudents(rows + [row], None)
    ensures forall k :: 0 <= k < |rows| ==> rows[k] in GetStudents(rows + [row], None)
  {
    var all := rows + [row];
    assert all[|rows|] == row;
    assert row in multiset(GetStudents(all, None));
    forall k | 0 <= k < |rows|
      ensures rows[k] in GetStudents(all, None)
    {
      assert all[k] == rows[k];
      assert rows[k] in multiset(GetStudents(all, None));
    }
  }

  /** Because the class must exist, creating a student never leaves it pointing at a missing class. */
  lemma CreatedStudentInClass(classes: seq<ClassRow>, students: seq<StudentRow>, req: StudentRequest,
                              id: nat, now: nat)
    requires StudentsInClasses(classes, students)
    requires CheckStudent(classes, req).Ok?
    ensures StudentsInClasses(classes, students + [NewStudent(req, CheckStudent(classes, req).value, id, now)])
  {
    var all := students + [NewStudent(req, CheckStudent(classes, req).value, id, now)];
    forall k | 0 <= k < |all|
      ensures ClassExists(classes, all[k].className)
    {
      if k < |students| {
        assert all[k] == students[k];
      }
    }
  }
}
