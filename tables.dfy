/**
 * The three Postgres tables the route handlers use, as sequences of rows, and
 * the constraints the schema puts on them.  `SERIAL` ids come from counters and
 * `created_at` timestamps are supplied by the caller.
 */
module Tables {
  import opened Wrappers
  import opened Types

  datatype ClassRow = ClassRow(id: nat, name: string, teacher: string, description: Option<string>,
                               createdAt: nat)

  datatype StudentRow = StudentRow(id: nat, name: string, className: string, email: Option<string>,
                                   status: StudentStatus, createdAt: nat)

  datatype AttendanceRow = AttendanceRow(id: nat, studentId: nat, studentName: string, className: string,
                                         date: string, status: AttendanceStatus, createdAt: nat)

  /** Two rows collide on the table's `UNIQUE(student_id, date)` key. */
  predicate SameKey(a: AttendanceRow, b: AttendanceRow) {
    a.studentId == b.studentId && a.date == b.date
  }

  /** `UNIQUE(student_id, date)`: at most one row per student and day. */
  predicate KeysUnique(rows: seq<AttendanceRow>) {
    forall i, j :: 0 <= i < j < |rows| ==> !SameKey(rows[i], rows[j])
  }

  /** A row of `students` has this id. */
  predicate HasStudent(students: seq<StudentRow>, id: nat) {
    exists k :: 0 <= k < |students| && students[k].id == id
  }

  /** `student_id INTEGER REFERENCES students(id)` */
  predicate StudentsReferenced(rows: seq<AttendanceRow>, students: seq<StudentRow>) {
    forall k :: 0 <= k < |rows| ==> HasStudent(students, rows[k].studentId)
  }

  /** A class row named `name` exists (`SELECT * FROM classes WHERE name = ...` finds one). */
  predicate ClassExists(classes: seq<ClassRow>, name: string) {
    exists k :: 0 <= k < |classes| && classes[k].name == name
  }

  /** Adding students never breaks a reference. */
  lemma StudentsReferencedGrow(rows: seq<AttendanceRow>, students: seq<StudentRow>, extra: seq<StudentRow>)
    requires StudentsReferenced(rows, students)
    ensures StudentsReferenced(rows, students + extra)
  {
    forall k | 0 <= k < |rows|
      ensures HasStudent(students + extra, rows[k].studentId)
    {
      var j :| 0 <= j < |students| && students[j].id == rows[k].studentId;
      assert (students + extra)[j] == students[j];
    }
  }

  /** Every student's `class_name` names an existing class. */
  predicate StudentsInClasses(classes: seq<ClassRow>, students: seq<StudentRow>) {
    forall k :: 0 <= k < |students| ==> ClassExists(classes, students[k].className)
  }

  /** No two classes share a name (the handlers check it; the schema does not). */
  predicate ClassNamesUnique(classes: seq<ClassRow>) {
    forall i, j :: 0 <= i < j < |classes| ==> classes[i].name != classes[j].name
  }

  predicate ClassIdsBelow(rows: seq<ClassRow>, next: nat) {
    forall k :: 0 <= k < |rows| ==> rows[k].id < next
  }

  predicate StudentIdsBelow(rows: seq<StudentRow>, next: nat) {
    forall k :: 0 <= k < |rows| ==> rows[k].id < next
  }

  /** The attendance table's constraints: SERIAL ids, the unique key and the student reference. */
  predicate AttendanceValid(rows: seq<AttendanceRow>, next: nat, students: seq<StudentRow>) {
    (forall k :: 0 <= k < |rows| ==> rows[k].id < next) &&
    KeysUnique(rows) && StudentsReferenced(rows, students)
  }

  class Database {
    var classes: seq<ClassRow>
    var students: seq<StudentRow>
    var attendance: seq<AttendanceRow>
    var nextClassId: nat
    var nextStudentId: nat
    var nextAttendanceId: nat

    /** The schema's constraints, plus: every SERIAL id is below its counter. */
    ghost predicate Valid()
      reads this
    {
      ClassIdsBelow(classes, nextClassId) && StudentIdsBelow(students, nextStudentId) &&
      AttendanceValid(attendance, nextAttendanceId, students)
    }

    /** Freshly created tables: empty, with every SERIAL counter at 1. */
    constructor ()
      ensures Valid()
      ensures classes == [] && students == [] && attendance == []
      ensures nextClassId == 1 && nextStudentId == 1 && nextAttendanceId == 1
    {
      classes, students, attendance := [], [], [];
      nextClassId, nextStudentId, nextAttendanceId := 1, 1, 1;
    }
  }
}
