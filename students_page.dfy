/**
 * app/students/page.tsx: the "Add Student" form.  Its checks run in order
 * (a name that is not blank, a chosen class, an e-mail that is empty or matches
 * the pattern as typed), the body it posts is normalised (trimmed name, trimmed
 * e-mail or null), and a successful add clears the form.
 */
module StudentsPage {
  import opened Wrappers
  import opened Text
  import opened Types
  import opened Tables
  import opened StudentsRoute

  /** The `newStudent` state: the fields as typed. */
  datatype StudentForm = StudentForm(name: string, className: string, email: string, status: StudentStatus)

  /** The form the page starts with and returns to after a successful add. */
  function EmptyForm(): (f: StudentForm)
    ensures f.name == [] && f.className == [] && f.email == [] && f.status == Active
  {
    StudentForm([], [], [], Active)
  }

  datatype FormError = NameRequired | ClassRequired | InvalidEmail

  /** `handleAddStudent`'s checks, in order; the e-mail is checked as typed, before any trimming. */
  function ValidateStudent(f: StudentForm): (r: Option<FormError>)
    ensures r == Some(NameRequired) <==> Trim(f.name) == []
    ensures r == Some(ClassRequired) <==> Trim(f.name) != [] && f.className == []
    ensures r == Some(InvalidEmail) <==>
              Trim(f.name) != [] && f.className != [] && f.email != [] && !MatchesEmailPattern(f.email)
  {
    EmailPatternIff(f.email);
    if Trim(f.name) == [] then Some(NameRequired)
    else if f.className == [] then Some(ClassRequired)
    else if f.email != [] && !IsEmail(f.email) then Some(InvalidEmail)
    else None
  }

  /** The JSON body posted to /api/students. */
  function StudentPayload(f: StudentForm): (r: StudentRequest)
    ensures r.name == Some(Trim(f.name)) && r.className == Some(f.className)
    ensures r.email.None? <==> AllSpace(f.email)
    ensures r.email.Some? ==> r.email.value == Trim(f.email)
    ensures r.status == Some(StudentStatusName(f.status))
  {
    var email := Trim(f.email);
    StudentRequest(Some(Trim(f.name)), Some(f.className), if email == [] then None else Some(email),
                   Some(StudentStatusName(f.status)))
  }

  /**
   * `disabled={!newStudent.name.trim() || !newStudent.className}`: the button is
   * enabled exactly when neither of the first two checks fails; the e-mail check
   * still can.
   */
  function AddEnabled(f: StudentForm): (r: bool)
    ensures r <==> ValidateStudent(f) != Some(NameRequired) && ValidateStudent(f) != Some(ClassRequired)
  {
    Trim(f.name) != [] && f.className != []
  }

  /** An accepted form posts the e-mail exactly as typed, or null when it was left empty. */
  lemma AcceptedEmailUnchanged(f: StudentForm)
    requires ValidateStudent(f).None?
    ensures StudentPayload(f).email == if f.email == [] then None else Some(f.email)
  {
    if f.email != [] {
      EmailPatternIff(f.email);
      EmailIsTrimmed(f.email);
    }
  }

  /**
   * A form the page accepts, naming an existing class, passes every check of
   * POST /api/students, with the status chosen on the form.
   */
  lemma AcceptedFormCreates(f: StudentForm, classes: seq<ClassRow>)
    requires ValidateStudent(f).None?
    requires ClassExists(classes, f.className)
    ensures CheckStudent(classes, StudentPayload(f)) == Ok(f.status)
  {
    var req := StudentPayload(f);
    assert Truthy(req.name) && Truthy(req.className);
    assert ParseStudentStatus(StudentStatusName(f.status)) == Some(f.status) by {
      StatusNamesRoundTrip(f.status, Present);
    }
  }

  /** The page's form state. */
  class StudentsView {
    var form: StudentForm

    constructor ()
      ensures form == EmptyForm()
    {
      form := EmptyForm();
    }

    /**
     * `handleAddStudent`: returns the body it posts, if the checks pass;
     * `accepted` is whether the server answered with a success status.  Only an
     * accepted add clears the form.
     */
    method AddStudent(accepted: bool) returns (sent: Option<StudentRequest>)
      modifies this
      ensures ValidateStudent(old(form)).Some? ==> sent == None && form == old(form)
      ensures ValidateStudent(old(form)).None? ==> sent == Some(StudentPayload(old(form)))
      ensures ValidateStudent(old(form)).None? && accepted ==> form == EmptyForm()
      ensures !accepted ==> form == old(form)
    {
      if ValidateStudent(form).Some? {
        return None;
      }
      sent := Some(StudentPayload(form));
      if accepted {
        form := EmptyForm();
      }
    }
  }
}
