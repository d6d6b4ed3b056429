/**
 * lib/storage.ts: the in-memory store.  Three module-level arrays of classes,
 * students and attendance records, reassigned by `filter` and grown by `push`,
 * and the per-class student counter that creating and deleting a student keeps
 * up to date.  The ids the source draws from `Date.now()` and `Math.random()`
 * are parameters.
 */
module Storage {
  import opened Wrappers
  import opened Text
  import opened Seqs
  import opened Types

  // ---------------------------------------------------------------------
  // The state changes, as functions of the arrays.

  /** The first class named `name`, if any, with its counter moved by `delta`; no other class changes. */
  function AdjustCount(cs: seq<Class>, name: string, delta: int): (r: seq<Class>)
    ensures |r| == |cs|
    ensures forall k :: 0 <= k < |cs| ==> r[k].(numberOfStudents := cs[k].numberOfStudents) == cs[k]
    ensures forall k :: 0 <= k < |cs| && cs[k].name != name ==> r[k] == cs[k]
    ensures forall k :: 0 <= k < |cs| && cs[k].name == name ==>
              r[k].numberOfStudents == cs[k].numberOfStudents +
                (if forall j :: 0 <= j < k ==> cs[j].name != name then delta else 0)
  {
    match FirstIndex(cs, (c: Class) => c.name == name)
    case Some(i) => cs[i := cs[i].(numberOfStudents := cs[i].numberOfStudents + delta)]
    case None => cs
  }

  /** `students.filter((s) => s.id !== id)` */
  function WithoutStudent(ss: seq<Student>, id: string): (r: seq<Student>)
    ensures forall k :: 0 <= k < |r| ==> r[k] in ss && r[k].id != id
    ensures forall k :: 0 <= k < |ss| && ss[k].id != id ==> ss[k] in r
  {
    Filter(ss, (s: Student) => s.id != id)
  }

  /** The classes after deleting student `id`: the class of the first student with that id loses one. */
  function ClassesAfterDelete(cs: seq<Class>, ss: seq<Student>, id: string): seq<Class> {
    match Find(ss, (s: Student) => s.id == id)
    case Some(s) => AdjustCount(cs, s.className, -1)
    case None => cs
  }

  /** `getAttendance`'s filters; a missing or empty filter does not restrict. */
  datatype AttendanceFilters = AttendanceFilters(className: Option<string>, date: Option<string>)

  predicate MatchesFilters(a: AttendanceRecord, f: Option<AttendanceFilters>) {
    (f.Some? && Truthy(f.value.className) ==> a.className == f.value.className.value) &&
    (f.Some? && Truthy(f.value.date) ==> a.date == f.value.date.value)
  }

  function WithId(r: AttendanceData, id: string): AttendanceRecord {
    AttendanceRecord(id, r.studentId, r.studentName, r.className, r.date, r.status)
  }

  class Store {
    var classes: seq<Class>
    var students: seq<Student>
    var attendance: seq<AttendanceRecord>

    /** The seeded store: one class and one student, no attendance. */
    constructor ()
      ensures classes == [Class("1", "Mathematics 101", "Dr. Johnson", 25, Some("Introduction to Calculus"))]
      ensures students == [Student("1", "John Doe", "Mathematics 101", Some("john@example.com"), Active)]
      ensures attendance == []
    {
      classes := [Class("1", "Mathematics 101", "Dr. Johnson", 25, Some("Introduction to Calculus"))];
      students := [Student("1", "John Doe", "Mathematics 101", Some("john@example.com"), Active)];
      attendance := [];
    }

    /** `getAllClasses`: the array itself. */
    function AllClasses(): seq<Class>
      reads this
    {
      classes
    }

    /** `getAllStudents`: the array itself. */
    function AllStudents(): seq<Student>
      reads this
    {
      students
    }

    /** `getClassById`: the first class with that id, or nothing. */
    function ClassById(id: string): (r: Option<Class>)
      reads this
      ensures r.Some? ==> exists k :: 0 <= k < |classes| && classes[k] == r.value && r.value.id == id &&
                            forall j :: 0 <= j < k ==> classes[j].id != id
      ensures r.None? <==> forall k :: 0 <= k < |classes| ==> classes[k].id != id
    {
      Find(classes, (c: Class) => c.id == id)
    }

    /** `getStudentById`: the first student with that id, or nothing. */
    function StudentById(id: string): (r: Option<Student>)
      reads this
      ensures r.Some? ==> exists k :: 0 <= k < |students| && students[k] == r.value && r.value.id == id &&
                            forall j :: 0 <= j < k ==> students[j].id != id
      ensures r.None? <==> forall k :: 0 <= k < |students| ==> students[k].id != id
    {
      Find(students, (s: Student) => s.id == id)
    }

    /** `createClass`: appends the class with the given id; nothing else changes. */
    method CreateClass(data: ClassData, id: string) returns (c: Class)
      modifies this
      ensures c == Class(id, data.name, data.teacher, data.numberOfStudents, data.description)
      ensures classes == old(classes) + [c]
      ensures students == old(students) && attendance == old(attendance)
    {
      c := Class(id, data.name, data.teacher, data.numberOfStudents, data.description);
      classes := classes + [c];
    }

    /** `deleteClass`: drops every class with that id and reports whether one was there. */
    method DeleteClass(id: string) returns (removed: bool)
      modifies this
      ensures classes == Filter(old(classes), (c: Class) => c.id != id)
      ensures removed <==> exists k :: 0 <= k < |old(classes)| && old(classes)[k].id == id
      ensures students == old(students) && attendance == old(attendance)
    {
      var initialLength := |classes|;
      FilterKeepsAll(classes, (c: Class) => c.id != id);
      classes := Filter(classes, (c: Class) => c.id != id);
      removed := initialLength != |classes|;
    }

    /** `createStudent`: appends the student and counts it in the first class of that name. */
    method CreateStudent(data: StudentData, id: string) returns (s: Student)
      modifies this
      ensures s == Student(id, data.name, data.className, data.email, data.status)
      ensures students == old(students) + [s]
      ensures classes == AdjustCount(old(classes), data.className, 1)
      ensures attendance == old(attendance)
    {
      s := Student(id, data.name, data.className, data.email, data.status);
      students := students + [s];
      var i := FirstIndex(classes, (c: Class) => c.name == data.className);
      if i.Some? {
        classes := classes[i.value := classes[i.value].(numberOfStudents := classes[i.value].numberOfStudents + 1)];
      }
    }

    /**
     * `deleteStudent`: the class of the first student with that id loses one from
     * its counter, with no lower bound; every student with that id is dropped; the
     * result says whether one was there.
     */
    method DeleteStudent(id: string) returns (removed: bool)
      modifies this
      ensures students == WithoutStudent(old(students), id)
      ensures classes == ClassesAfterDelete(old(classes), old(students), id)
      ensures removed <==> exists k :: 0 <= k < |old(students)| && old(students)[k].id == id
      ensures attendance == old(attendance)
    {
      var student := Find(students, (s: Student) => s.id == id);
      if student.Some? {
        var name := student.value.className;
        var i := FirstIndex(classes, (c: Class) => c.name == name);
        assert AdjustCount(classes, name, -1) ==
               if i.Some? then classes[i.value := classes[i.value].(numberOfStudents := classes[i.value].numberOfStudents - 1)]
               else classes;
        if i.Some? {
          classes := classes[i.value := classes[i.value].(numberOfStudents := classes[i.value].numberOfStudents - 1)];
        }
      }
      var initialLength := |students|;
      FilterKeepsAll(students, (s: Student) => s.id != id);
      students := WithoutStudent(students, id);
      removed := initialLength != |students|;
    }

    /** `getAttendance`: the records matching every given, non-empty filter, in stored order. */
    function Attendance(filters: Option<AttendanceFilters>): (r: seq<AttendanceRecord>)
      reads this
      ensures r == Filter(attendance, (a: AttendanceRecord) => MatchesFilters(a, filters))
    {
      var byClass :=
        if filters.Some? && Truthy(filters.value.className)
        then Filter(attendance, (a: AttendanceRecord) => a.className == filters.value.className.value)
        else attendance;
      var byDate :=
        if filters.Some? && Truthy(filters.value.date)
        then Filter(byClass, (a: AttendanceRecord) => a.date == filters.value.date.value)
        else byClass;
      AttendanceFiltered(attendance, filters);
      byDate
    }

    /** `saveAttendance`: appends the records, each with its new id, and returns them. */
    method SaveAttendance(records: seq<AttendanceData>, ids: seq<string>) returns (saved: seq<AttendanceRecord>)
      requires |ids| == |records|
      modifies this
      ensures |saved| == |records| && forall k :: 0 <= k < |records| ==> saved[k] == WithId(records[k], ids[k])
      ensures attendance == old(attendance) + saved
      ensures classes == old(classes) && students == old(students)
    {
      saved := seq(|records|, k requires 0 <= k < |records| => WithId(records[k], ids[k]));
      attendance := attendance + saved;
    }
  }

  /** The two successive filters of `getAttendance` are the one filter by all given conditions. */
  lemma AttendanceFiltered(rs: seq<AttendanceRecord>, filters: Option<AttendanceFilters>)
    ensures var byClass :=
        if filters.Some? && Truthy(filters.value.className)
        then Filter(rs, (a: AttendanceRecord) => a.className == filters.value.className.value)
        else rs;
      var byDate :=
        if filters.Some? && Truthy(filters.value.date)
        then Filter(byClass, (a: AttendanceRecord) => a.date == filters.value.date.value)
        else byClass;
      byDate == Filter(rs, (a: AttendanceRecord) => MatchesFilters(a, filters))
  {
    var all := (a: AttendanceRecord) => MatchesFilters(a, filters);
    var pc := (a: AttendanceRecord) => filters.Some? && Truthy(filters.value.className) ==>
                                         a.className == filters.value.className.value;
    var pd := (a: AttendanceRecord) => filters.Some? && Truthy(filters.value.date) ==>
                                         a.date == filters.value.date.value;
    FilterFilter(rs, pc, pd, all);
    if filters.Some? && Truthy(filters.value.className) {
      FilterCongruent(rs, pc, (a: AttendanceRecord) => a.className == filters.value.className.value);
    } else {
      assert forall k :: 0 <= k < |rs| ==> pc(rs[k]);
      FilterKeepsAll(rs, pc);
    }
    var byClass := Filter(rs, pc);
    if filters.Some? && Truthy(filters.value.date) {
      FilterCongruent(byClass, pd, (a: AttendanceRecord) => a.date == filters.value.date.value);
    } else {
      assert forall k :: 0 <= k < |byClass| ==> pd(byClass[k]);
      FilterKeepsAll(byClass, pd);
    }
  }

  /** Moving the same class's counter up and then down by one restores every class. */
  lemma AdjustCountInverse(cs: seq<Class>, name: string)
    ensures AdjustCount(AdjustCount(cs, name, 1), name, -1) == cs
  {
    var up := AdjustCount(cs, name, 1);
    var back := AdjustCount(up, name, -1);
    forall k | 0 <= k < |cs|
      ensures back[k] == cs[k]
    {
      assert forall j :: 0 <= j < k ==> (up[j].name != name <==> cs[j].name != name);
    }
  }

  /**
   * Creating a student with an id no student has, then deleting that id,
   * restores the students array and every class counter.
   */
  lemma CreateThenDeleteStudent(cs: seq<Class>, ss: seq<Student>, data: StudentData, id: string)
    requires forall k :: 0 <= k < |ss| ==> ss[k].id != id
    ensures var created := Student(id, data.name, data.className, data.email, data.status);
      WithoutStudent(ss + [created], id) == ss &&
      ClassesAfterDelete(AdjustCount(cs, data.className, 1), ss + [created], id) == cs
  {
    var created := Student(id, data.name, data.className, data.email, data.status);
    var keep := (s: Student) => s.id != id;
    FilterAppend(ss, [created], keep);
    FilterKeepsAll(ss, keep);
    FilterKeepsNone([created], keep);
    var found := Find(ss + [created], (s: Student) => s.id == id);
    assert (ss + [created])[|ss|] == created;
    assert found == Some(created);
    AdjustCountInverse(cs, data.className);
  }

  /** Deleting an id no student has changes neither array. */
  lemma DeleteUnknownStudent(cs: seq<Class>, ss: seq<Student>, id: string)
    requires forall k :: 0 <= k < |ss| ==> ss[k].id != id
    ensures WithoutStudent(ss, id) == ss && ClassesAfterDelete(cs, ss, id) == cs
  {
    FilterKeepsAll(ss, (s: Student) => s.id != id);
  }

  /**
   * The listings agree with the lookups: every class and student listed is found
   * by its id, and a lookup only finds what is listed.
   */
  lemma ListingsMatchLookups(store: Store)
    ensures forall k :: 0 <= k < |store.AllClasses()| ==> store.ClassById(store.AllClasses()[k].id).Some?
    ensures forall id :: store.ClassById(id).Some? ==> store.ClassById(id).value in store.AllClasses()
    ensures forall k :: 0 <= k < |store.AllStudents()| ==> store.StudentById(store.AllStudents()[k].id).Some?
    ensures forall id :: store.StudentById(id).Some? ==> store.StudentById(id).value in store.AllStudents()
  {
  }
}
