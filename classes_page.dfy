/**
 * app/classes/page.tsx: the "Add Class" and "Edit Class" forms.  Both require a
 * name and a teacher that are not blank, both post trimmed fields with a blank
 * description sent as null, and the edit form starts from the class's stored
 * values with a null description shown as empty.
 */
module ClassesPage {
  import opened Wrappers
  import opened Text
  import opened Tables
  import opened ClassesRoute

  /** The `newClass` / `editClass` state: the fields as typed. */
  datatype ClassForm = ClassForm(name: string, teacher: string, description: string)

  function EmptyClassForm(): (f: ClassForm)
    ensures f.name == [] && f.teacher == [] && f.description == []
  {
    ClassForm([], [], [])
  }

  /** The check shared by `handleAddClass` and `handleUpdateClass`. */
  predicate ClassFormValid(f: ClassForm) {
    Trim(f.name) != [] && Trim(f.teacher) != []
  }

  /** `disabled={!x.name.trim() || !x.teacher.trim()}` on both buttons: disabled exactly when the check rejects. */
  function ButtonDisabled(f: ClassForm): (r: bool)
    ensures r <==> !ClassFormValid(f)
  {
    Trim(f.name) == [] || Trim(f.teacher) == []
  }

  /** The JSON body both handlers post: trimmed fields, a blank description as null. */
  function ClassPayload(f: ClassForm): (r: ClassRequest)
    ensures r.name == Some(Trim(f.name)) && r.teacher == Some(Trim(f.teacher))
    ensures r.description.None? <==> AllSpace(f.description)
    ensures r.description.Some? ==> r.description.value == Trim(f.description)
  {
    var d := Trim(f.description);
    ClassRequest(Some(Trim(f.name)), Some(Trim(f.teacher)), if d == [] then None else Some(d))
  }

  /** `handleEditClick`: the stored values, a null description shown as empty. */
  function EditForm(c: ClassRow): (f: ClassForm)
    ensures f.name == c.name && f.teacher == c.teacher
    ensures f.description == if c.description.Some? then c.description.value else []
  {
    ClassForm(c.name, c.teacher, c.description.GetOr([]))
  }

  /** A field as the add handler stores it: no white space at either end. */
  predicate Trimmed(s: string) {
    s == [] || (!IsSpace(s[0]) && !IsSpace(s[|s| - 1]))
  }

  /**
   * Opening the edit form of a class the page created and saving it unchanged
   * posts the stored name, teacher and description back.
   */
  lemma EditRoundTrip(c: ClassRow)
    requires Trimmed(c.name) && Trimmed(c.teacher)
    requires c.description.Some? ==> c.description.value != [] && Trimmed(c.description.value)
    ensures ClassPayload(EditForm(c)) == ClassRequest(Some(c.name), Some(c.teacher), c.description)
  {
    TrimKeeps(c.name);
    TrimKeeps(c.teacher);
    if c.description.Some? {
      TrimKeeps(c.description.value);
    }
  }

  /**
   * A form that passes the page's check passes the route's required-field check,
   * and its description is already what the route stores.
   */
  lemma ValidFormPayload(f: ClassForm, classes: seq<ClassRow>)
    requires ClassFormValid(f)
    ensures CheckClass(classes, ClassPayload(f)) != Some(NameAndTeacherRequired)
    ensures StoredDescription(ClassPayload(f).description) == ClassPayload(f).description
  {
  }

  /** What the page sends for an edit: the class's id and the body of the PUT. */
  datatype ClassUpdate = ClassUpdate(id: nat, body: ClassRequest)

  /** The page's form state. */
  class ClassesView {
    var newClass: ClassForm
    var editClass: ClassForm
    var classToEdit: Option<ClassRow>

    constructor ()
      ensures newClass == EmptyClassForm() && editClass == EmptyClassForm() && classToEdit == None
    {
      newClass, editClass, classToEdit := EmptyClassForm(), EmptyClassForm(), None;
    }

    /** `handleAddClass`; `accepted` is whether the server answered with a success status. */
    method AddClass(accepted: bool) returns (sent: Option<ClassRequest>)
      modifies this
      ensures !ClassFormValid(old(newClass)) ==> sent == None && newClass == old(newClass)
      ensures ClassFormValid(old(newClass)) ==> sent == Some(ClassPayload(old(newClass)))
      ensures newClass == if ClassFormValid(old(newClass)) && accepted then EmptyClassForm() else old(newClass)
      ensures editClass == old(editClass) && classToEdit == old(classToEdit)
    {
      if !ClassFormValid(newClass) {
        return None;
      }
      sent := Some(ClassPayload(newClass));
      if accepted {
        newClass := EmptyClassForm();
      }
    }

    /** `handleEditClick` */
    method EditClick(c: ClassRow)
      modifies this
      ensures classToEdit == Some(c) && editClass == EditForm(c) && newClass == old(newClass)
    {
      classToEdit := Some(c);
      editClass := EditForm(c);
    }

    /** `handleUpdateClass`: nothing is sent without a class being edited or when the check rejects. */
    method UpdateClass() returns (sent: Option<ClassUpdate>)
      ensures classToEdit.None? || !ClassFormValid(editClass) ==> sent == None
      ensures classToEdit.Some? && ClassFormValid(editClass) ==>
                sent == Some(ClassUpdate(classToEdit.value.id, ClassPayload(editClass)))
    {
      if classToEdit.None? {
        return None;
      }
      if !ClassFormValid(editClass) {
        return None;
      }
      return Some(ClassUpdate(classToEdit.value.id, ClassPayload(editClass)));
    }
  }
}
