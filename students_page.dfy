/** The client logic of the student management screen
    (`src/app/dashboard/alunos/page.tsx`): the form checks, the phone
    mapping, and the local list updates after a create, an update or a
    delete. */
module StudentsPage {
  import opened Base
  import opened Records
  import opened ListUpdates
  import StudentActions
  import Store

  /** The form's fields; `id` is meaningful in edit mode only, and an absent
      phone is `null`. */
  datatype StudentForm = StudentForm(id: Id, enrollment: string, name: string, phone: Option<string>)

  function StudentId(s: Student): Id { s.id }

  /** The check of `handleCreateOrUpdateStudent`: enrollment or name is
      empty. */
  predicate MissingField(f: StudentForm)
  {
    f.enrollment == "" || f.name == ""
  }

  /** `phone || undefined` on create: an empty or absent phone is sent as
      absent, any other as it is. */
  function PhoneForCreate(phone: Option<string>): (r: Option<string>)
    ensures r.None? <==> phone.None? || phone.value == ""
    ensures r.Some? ==> r == phone
    ensures r != Some("")
  {
    if phone.Some? && phone.value != "" then phone else None
  }

  /** Normalising a phone twice changes nothing more than once. */
  lemma PhoneForCreateIdempotent(phone: Option<string>)
    ensures PhoneForCreate(PhoneForCreate(phone)) == PhoneForCreate(phone)
  {
  }

  datatype StudentFormOutcome =
    | MissingFields
    | DuplicateEnrollment
    | Saved(result: Result<Student>)

  /** The state of the student screen. */
  class StudentsView {
    var students: seq<Student>
    var form: StudentForm
    var isEditMode: bool
    var modalOpen: bool

    /** The list after a successful update: the entry with the edited id is
        replaced, the others keep their values and places. */
    method ShowUpdated(id: Id, s: Student)
      modifies this
      ensures students == ReplaceById(old(students), id, s, StudentId)
      ensures !modalOpen && form == old(form) && isEditMode == old(isEditMode)
    {
      students := ReplaceById(students, id, s, StudentId);
      modalOpen := false;
    }

    /** The list after a successful create: the new student at the end. */
    method ShowCreated(s: Student)
      modifies this
      ensures students == Append(old(students), s)
      ensures !modalOpen && form == old(form) && isEditMode == old(isEditMode)
    {
      students := Append(students, s);
      modalOpen := false;
    }

    /** `handleCreateOrUpdateStudent`. An empty enrollment or name is refused
        before any action runs. In edit mode the name and the phone (as the
        form holds it) are written and the class is left alone; otherwise an
        enrollment already present is refused, and the student is created
        with no class and an empty phone sent as absent. */
    method HandleCreateOrUpdateStudent(lib: Store.Library) returns (out: StudentFormOutcome)
      requires lib.Valid()
      modifies this, lib
      ensures lib.Valid()
      ensures out == MissingFields <==> MissingField(old(form))
      ensures out == DuplicateEnrollment <==>
        && !MissingField(old(form)) && !old(isEditMode)
        && StudentActions.GetStudentByEnrollment(old(lib.State()), old(form).enrollment).Some?
      ensures !out.Saved? ==> lib.State() == old(lib.State()) && students == old(students) && modalOpen == old(modalOpen)
      ensures out.Saved? && old(isEditMode) ==>
        var f := old(form);
        var s := StudentActions.UpdateStudent(old(lib.State()), f.id, f.name, f.phone, Keep);
        lib.State() == s.db && out.result == s.result
      ensures out.Saved? && !old(isEditMode) ==>
        var f := old(form);
        var s := StudentActions.CreateStudent(old(lib.State()), f.enrollment, f.name, PhoneForCreate(f.phone), None);
        lib.State() == s.db && out.result == s.result
      ensures out.Saved? && !old(isEditMode) ==> out.result.Ok? && out.result.value.phone != Some("")
      ensures out.Saved? && out.result.Ok? && old(isEditMode) ==>
        students == ReplaceById(old(students), old(form).id, out.result.value, StudentId) && !modalOpen
      ensures out.Saved? && out.result.Ok? && !old(isEditMode) ==>
        students == Append(old(students), out.result.value) && !modalOpen
      ensures out.Saved? && out.result.Err? ==> students == old(students) && modalOpen == old(modalOpen)
      ensures form == old(form) && isEditMode == old(isEditMode)
    {
      if form.enrollment == "" || form.name == "" {
        return MissingFields;
      }
      if isEditMode {
        var result := lib.UpdateStudent(form.id, form.name, form.phone, Keep);
        if result.Ok? {
          ShowUpdated(form.id, result.value);
        }
        return Saved(result);
      }
      var check := StudentActions.GetStudentByEnrollment(lib.State(), form.enrollment);
      if check.Some? {
        return DuplicateEnrollment;
      }
      var result := lib.CreateStudent(form.enrollment, form.name, PhoneForCreate(form.phone), None);
      if result.Ok? {
        ShowCreated(result.value);
      }
      return Saved(result);
    }

    /** `handleDeleteStudent`: after a successful delete every entry with
        that id leaves the list and the rest keep their order. */
    method HandleDeleteStudent(lib: Store.Library, id: Id) returns (r: Result<()>)
      requires lib.Valid()
      modifies this, lib
      ensures lib.Valid()
      ensures lib.State() == StudentActions.DeleteStudent(old(lib.State()), id).db
      ensures r == StudentActions.DeleteStudent(old(lib.State()), id).result
      ensures r.Ok? ==> students == RemoveById(old(students), id, StudentId)
      ensures r.Err? ==> students == old(students)
      ensures form == old(form) && isEditMode == old(isEditMode) && modalOpen == old(modalOpen)
    {
      r := lib.DeleteStudent(id);
      if r.Ok? {
        students := RemoveById(students, id, StudentId);
      }
    }
  }
}
