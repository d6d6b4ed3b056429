/**
 * app/api/classes/route.ts: listing every class, newest first, with the number
 * of students whose `class_name` matches its name, and creating a class once
 * its name and teacher are given and no class has that name yet.
 */
module ClassesRoute {
  import opened Wrappers
  import opened Text
  import opened Seqs
  import opened Types
  import opened Tables

  // ---------------------------------------------------------------------
  // GET /api/classes

  /** A class as the GET handler returns it, with `number_of_students` from the join. */
  datatype ClassListing = ClassListing(row: ClassRow, numberOfStudents: nat)

  /** `ORDER BY c.created_at DESC` */
  function NewestFirst(a: ClassRow, b: ClassRow): bool {
    a.createdAt >= b.createdAt
  }

  predicate InClass(s: StudentRow, name: string) {
    s.className == name
  }

  /** The students kept for a class are as many as the positions whose `class_name` is its name. */
  lemma ClassSizeCount(students: seq<StudentRow>, name: string)
    ensures |Filter(students, (s: StudentRow) => InClass(s, name))| ==
            |set k | 0 <= k < |students| && students[k].className == name|
  {
    var p := (s: StudentRow) => InClass(s, name);
    FilterCount(students, p);
    assert Positions(students, p) ==
           (set k | 0 <= k < |students| && students[k].className == name);
  }

  /** `COUNT(s.id)` over `LEFT JOIN students s ON c.name = s.class_name`. */
  function StudentCount(students: seq<StudentRow>, name: string): (n: nat)
    ensures n <= |students|
    ensures n == 0 <==> forall k :: 0 <= k < |students| ==> students[k].className != name
    ensures n == |set k | 0 <= k < |students| && students[k].className == name|
  {
    var p := (s: StudentRow) => InClass(s, name);
    ClassSizeCount(students, name);
    if forall k :: 0 <= k < |students| ==> students[k].className != name then
      FilterKeepsNone(students, p);
      |Filter(students, p)|
    else
      var k :| 0 <= k < |students| && students[k].className == name;
      assert students[k] in Filter(students, p);
      |Filter(students, p)|
  }

  /** The rows of a listing, in order. */
  function ListedRows(r: seq<ClassListing>): (rows: seq<ClassRow>)
    ensures |rows| == |r| && forall k :: 0 <= k < |r| ==> rows[k] == r[k].row
  {
    seq(|r|, k requires 0 <= k < |r| => r[k].row)
  }

  /** The GET handler: every class exactly once, newest first, with its student count. */
  function GetClasses(classes: seq<ClassRow>, students: seq<StudentRow>): (r: seq<ClassListing>)
    ensures multiset(ListedRows(r)) == multiset(classes)
    ensures SortedBy(ListedRows(r), NewestFirst)
    ensures forall k :: 0 <= k < |r| ==> r[k].numberOfStudents == StudentCount(students, r[k].row.name)
  {
    var sorted := SortBy(classes, NewestFirst);
    SortBySorted(classes, NewestFirst);
    var r := seq(|sorted|, k requires 0 <= k < |sorted| =>
                 ClassListing(sorted[k], StudentCount(students, sorted[k].name)));
    assert ListedRows(r) == sorted;
    r
  }

  // ---------------------------------------------------------------------
  // POST /api/classes

  /** The parsed body; a field is `None` when it is absent. */
  datatype ClassRequest = ClassRequest(name: Option<string>, teacher: Option<string>, description: Option<string>)

  datatype ClassError = NameAndTeacherRequired | DuplicateName

  datatype ClassResponse = ClassCreated(listing: ClassListing) | ClassRejected(error: ClassError)

  /** 201 on success, 400 for a missing field, 409 for a name already taken. */
  function ClassStatusCode(r: ClassResponse): int {
    match r
    case ClassCreated(_) => 201
    case ClassRejected(NameAndTeacherRequired) => 400
    case ClassRejected(DuplicateName) => 409
  }

  /** The handler's two checks, in order. */
  function CheckClass(classes: seq<ClassRow>, req: ClassRequest): (r: Option<ClassError>)
    ensures r == Some(NameAndTeacherRequired) <==> !Truthy(req.name) || !Truthy(req.teacher)
    ensures r == Some(DuplicateName) <==>
              Truthy(req.name) && Truthy(req.teacher) && ClassExists(classes, req.name.value)
  {
    if !Truthy(req.name) || !Truthy(req.teacher) then Some(NameAndTeacherRequired)
    else if ClassExists(classes, req.name.value) then Some(DuplicateName)
    else None
  }

  /** `description || null`: an empty or absent description is stored as null. */
  function StoredDescription(d: Option<string>): (r: Option<string>)
    ensures r.Some? <==> Truthy(d)
    ensures r.Some? ==> r == d
  {
    if Truthy(d) then d else None
  }

  /** The row `INSERT ... RETURNING *` gives back for an accepted request. */
  function NewClass(req: ClassRequest, id: nat, now: nat): ClassRow
    requires req.name.Some? && req.teacher.Some?
  {
    ClassRow(id, req.name.value, req.teacher.value, StoredDescription(req.description), now)
  }

  /** The POST handler: the table gains one row exactly when both checks pass; the reply counts 0 students. */
  method PostClass(db: Database, req: ClassRequest, now: nat) returns (response: ClassResponse)
    requires db.Valid()
    modifies db
    ensures db.Valid()
    ensures db.students == old(db.students) && db.attendance == old(db.attendance)
    ensures db.nextStudentId == old(db.nextStudentId) && db.nextAttendanceId == old(db.nextAttendanceId)
    ensures CheckClass(old(db.classes), req).Some? ==>
              response == ClassRejected(CheckClass(old(db.classes), req).value) &&
              db.classes == old(db.classes) && db.nextClassId == old(db.nextClassId)
    ensures CheckClass(old(db.classes), req).None? ==>
              var row := NewClass(req, old(db.nextClassId), now);
              response == ClassCreated(ClassListing(row, 0)) && db.classes == old(db.classes) + [row] &&
              db.nextClassId == old(db.nextClassId) + 1
  {
    match CheckClass(db.classes, req)
    case Some(e) =>
      return ClassRejected(e);
    case None =>
      var row := NewClass(req, db.nextClassId, now);
      db.classes := db.classes + [row];
      db.nextClassId := db.nextClassId + 1;
      return ClassCreated(ClassListing(row, 0));
  }

  /** The duplicate check keeps class names unique. */
  lemma CreatedClassNameUnique(classes: seq<ClassRow>, req: ClassRequest, id: nat, now: nat)
    requires ClassNamesUnique(classes)
    requires CheckClass(classes, req).None?
    ensures ClassNamesUnique(classes + [NewClass(req, id, now)])
  {
    var all := classes + [NewClass(req, id, now)];
    forall i, j | 0 <= i < j < |all|
      ensures all[i].name != all[j].name
    {
      if j == |classes| {
        assert all[i] == classes[i];
      } else {
        assert all[i] == classes[i] && all[j] == classes[j];
      }
    }
  }

  /**
   * The 0 the POST reply carries is what GET reports for the new class, as long
   * as every student belongs to an existing class.
   */
  lemma CreatedClassCountsZero(classes: seq<ClassRow>, students: seq<StudentRow>, req: ClassRequest,
                               id: nat, now: nat)
    requires StudentsInClasses(classes, students)
    requires CheckClass(classes, req).None?
    ensures var r := GetClasses(classes + [NewClass(req, id, now)], students);
      exists k :: 0 <= k < |r| && r[k] == ClassListing(NewClass(req, id, now), 0)
  {
    var row := NewClass(req, id, now);
    var all := classes + [row];
    var r := GetClasses(all, students);
    forall k | 0 <= k < |students|
      ensures students[k].className != row.name
    {
      var j :| 0 <= j < |classes| && classes[j].name == students[k].className;
    }
    assert all[|classes|] == row;
    assert row in multiset(ListedRows(r));
    var k :| 0 <= k < |r| && ListedRows(r)[k] == row;
  }
}
