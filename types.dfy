/** The records of lib/types.ts and the two status enumerations. */
module Types {
  import opened Wrappers

  datatype StudentStatus = Active | Inactive
  datatype AttendanceStatus = Present | Absent

  function StudentStatusName(s: StudentStatus): string {
    match s
    case Active => "Active"
    case Inactive => "Inactive"
  }

  function AttendanceStatusName(s: AttendanceStatus): string {
    match s
    case Present => "Present"
    case Absent => "Absent"
  }

  /** `['Active', 'Inactive'].includes(s)`, returning the matching enumeration value. */
  function ParseStudentStatus(s: string): (r: Option<StudentStatus>)
    ensures r.Some? <==> s == "Active" || s == "Inactive"
    ensures r.Some? ==> StudentStatusName(r.value) == s
  {
    if s == "Active" then Some(Active)
    else if s == "Inactive" then Some(Inactive)
    else None
  }

  /** `['Present', 'Absent'].includes(s)`, returning the matching enumeration value. */
  function ParseAttendanceStatus(s: string): (r: Option<AttendanceStatus>)
    ensures r.Some? <==> s == "Present" || s == "Absent"
    ensures r.Some? ==> AttendanceStatusName(r.value) == s
  {
    if s == "Present" then Some(Present)
    else if s == "Absent" then Some(Absent)
    else None
  }

  lemma StatusNamesRoundTrip(s: StudentStatus, a: AttendanceStatus)
    ensures ParseStudentStatus(StudentStatusName(s)) == Some(s)
    ensures ParseAttendanceStatus(AttendanceStatusName(a)) == Some(a)
  {
  }

  /** `Class`; the optional `description` is `None` when absent. */
  datatype Class = Class(id: string, name: string, teacher: string, numberOfStudents: int,
                         description: Option<string>)

  /** `Omit<Class, "id">` */
  datatype ClassData = ClassData(name: string, teacher: string, numberOfStudents: int,
                                 description: Option<string>)

  datatype Student = Student(id: string, name: string, className: string, email: Option<string>,
                             status: StudentStatus)

  /** `Omit<Student, "id">` */
  datatype StudentData = StudentData(name: string, className: string, email: Option<string>,
                                     status: StudentStatus)

  datatype AttendanceRecord = AttendanceRecord(id: string, studentId: string, studentName: string,
                                               className: string, date: string, status: AttendanceStatus)

  /** `Omit<AttendanceRecord, "id">` */
  datatype AttendanceData = AttendanceData(studentId: string, studentName: string, className: string,
                                           date: string, status: AttendanceStatus)
}
