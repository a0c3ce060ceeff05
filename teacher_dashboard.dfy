/** The teacher page: the courses owned by the signed-in teacher, each course's
    roster, the department and course forms, and the create/edit mode of the
    course form. */
module TeacherDashboard {
  import opened Wrappers
  import opened Js
  import opened Seqs
  import opened Records

  // ---------------------------------------------------------------------------
  // Ownership and rosters

  /** `c.teacherName === user.name`: a display-name match, case-sensitive,
      with an absent name on both sides counting as equal. */
  predicate OwnedBy(user: User, c: Course) {
    c.teacherName == user.name
  }

  function Owned(user: User): Course -> bool {
    c => OwnedBy(user, c)
  }

  /** The owned-course filter of `loadData`. */
  function OwnedCourses(user: User, courses: seq<Course>): (r: seq<Course>)
    ensures forall i :: 0 <= i < |r| ==> r[i] in courses && r[i].teacherName == user.name
    ensures forall j :: 0 <= j < |courses| && courses[j].teacherName == user.name ==> courses[j] in r
  {
    Filter(courses, Owned(user))
  }

  lemma OwnedCoursesInOrder(user: User, courses: seq<Course>) returns (idx: seq<int>)
    ensures SelectedAt(OwnedCourses(user, courses), courses, Owned(user), idx)
  {
    idx := FilterSelects(courses, Owned(user));
  }

  /** Ownership is by display name only: two teachers with the same name see
      the same courses. */
  lemma {:induction false} SameNameSameCourses(a: User, b: User, courses: seq<Course>)
    requires a.name == b.name
    ensures OwnedCourses(a, courses) == OwnedCourses(b, courses)
  {
    if |courses| > 0 {
      SameNameSameCourses(a, b, courses[..|courses| - 1]);
    }
  }

  /** `String(en.course?.id || en.courseId)` */
  function CourseKey(e: Enrollment): string {
    ToStr(Or(NestedCourseId(e), e.courseId))
  }

  predicate OnRoster(c: Course, e: Enrollment) {
    CourseKey(e) == ToStr(c.id)
  }

  function Attends(c: Course): Enrollment -> bool {
    e => OnRoster(c, e)
  }

  /** `enrolledStudents`: the `student` of every enrollment of the course, in
      order, absent and null students included. */
  function Roster(c: Course, es: seq<Enrollment>): seq<Nested<User>> {
    var matching := Filter(es, Attends(c));
    seq(|matching|, k requires 0 <= k < |matching| => matching[k].student)
  }

  /** The roster lists, in fetched order, the student of exactly the
      enrollments whose course key is the course's id; its length, which the
      page shows as the count, is the number of those enrollments, whether or
      not they carry a student. */
  lemma RosterIsMatchingStudents(c: Course, es: seq<Enrollment>) returns (idx: seq<int>)
    ensures |idx| == |Roster(c, es)|
    ensures forall k :: 0 <= k < |idx| ==>
      0 <= idx[k] < |es| && OnRoster(c, es[idx[k]]) && Roster(c, es)[k] == es[idx[k]].student
    ensures forall k, l :: 0 <= k < l < |idx| ==> idx[k] < idx[l]
    ensures forall j :: 0 <= j < |es| && OnRoster(c, es[j]) ==> j in idx
  {
    idx := FilterSelects(es, Attends(c));
  }

  /** An enrollment whose course key matches none of the owned courses is on
      no roster. */
  lemma DanglingEnrollmentOnNoRoster(user: User, courses: seq<Course>, es: seq<Enrollment>, e: Enrollment)
    requires forall c :: c in courses ==> !OnRoster(c, e)
    ensures forall c :: c in OwnedCourses(user, courses) ==> e !in Filter(es, Attends(c))
  {
  }

  /** The nested course wins over the flat `courseId` whenever its id is truthy. */
  lemma NestedCourseWins(c: Course, e: Enrollment)
    requires Truthy(NestedCourseId(e))
    ensures OnRoster(c, e) <==> ToStr(NestedCourseId(e)) == ToStr(c.id)
  {
  }

  // ---------------------------------------------------------------------------
  // Department form

  /** The body of `handleSaveDepartment`: nothing when the name is blank,
      otherwise the name as typed (untrimmed). */
  function DepartmentRequest(deptName: string): (r: Option<Request>)
    ensures r.None? <==> IsBlank(deptName)
    ensures r.Some? ==> r.value == PostDepartment(deptName)
  {
    if IsBlank(deptName) then None else Some(PostDepartment(deptName))
  }

  // ---------------------------------------------------------------------------
  // Course form

  /** `newCourse`: the form's fields as the inputs hold them. */
  datatype CourseForm = CourseForm(name: Value, code: Value, credit: Value, departmentId: Value)

  const EmptyForm := CourseForm(Str(""), Str(""), Str(""), Str(""))

  /** A text value as a JSON string field: anything but a string is dropped. */
  function AsText(v: Value): Option<string> {
    if v.Str? then Some(v.s) else None
  }

  /** What a form control shows for a state value: `null` and `undefined`
      show as empty. */
  function ControlText(v: Value): string {
    if v.Undef? || v.Null? then "" else ToStr(v)
  }

  /** The browser's constraint validation of the course form, which runs
      before `handleSaveCourse` can be called: name, code and credit are
      `required`, the credit input is `type="number"` (it shows a number or
      nothing), and the `required` department select needs an option. */
  predicate Submittable(form: CourseForm, departments: seq<Department>) {
    && ControlText(form.name) != ""
    && ControlText(form.code) != ""
    && (form.credit.Num? || (form.credit.Str? && !IsBlank(form.credit.s) && StringToNumber(form.credit.s).Some?))
    && |departments| > 0
  }

  /** The payload of `handleSaveCourse`. `None` when `code.toUpperCase()`
      throws because the code is not a string; the handler then sends nothing.
      Numbers go through `Number(...)` and NaN is written as null. */
  function CoursePayload(user: User, form: CourseForm): (r: Option<Course>)
    ensures r.Some? <==> form.code.Str?
    ensures r.Some? ==> r.value.code.Some? && |r.value.code.value| == |form.code.s|
    ensures r.Some? ==> Lower(r.value.code.value) == Lower(form.code.s)
    ensures r.Some? ==> forall i :: 0 <= i < |r.value.code.value| ==> !IsAsciiLower(r.value.code.value[i])
    ensures r.Some? ==> r.value.teacherName == user.name
    ensures r.Some? ==> r.value.capacity == Num(30) && r.value.enrolled == Num(0)
    ensures r.Some? ==> r.value.credit == JsonNumber(ToNumber(form.credit))
    ensures r.Some? ==> r.value.department == Present(Department(JsonNumber(ToNumber(form.departmentId)), None))
    ensures r.Some? ==> r.value.name == AsText(form.name) && r.value.id == Undef
  {
    if !form.code.Str? then None
    else
      LowerOfUpper(form.code.s);
      Some(NoCourse.(
        name := AsText(form.name),
        code := Some(Upper(form.code.s)),
        credit := JsonNumber(ToNumber(form.credit)),
        teacherName := user.name,
        capacity := Num(30),
        enrolled := Num(0),
        department := Present(Department(JsonNumber(ToNumber(form.departmentId)), None))))
  }

  /** The form the edit button fills from a course. */
  function EditForm(c: Course): CourseForm {
    CourseForm(Text(c.name), Text(c.code), c.credit, Or(DepartmentId(c), Str("")))
  }

  /** Saving, unchanged, the form that the edit button filled writes back the
      course's own name and numeric credit and its code upper-cased; a null
      credit is saved as 0 and a missing one as null. A numeric department id
      survives, and a course without a department (or with a null one) is
      saved under department 0. A course without a code cannot be saved. */
  lemma EditFormRoundTrip(user: User, c: Course)
    ensures CoursePayload(user, EditForm(c)).Some? <==> c.code.Some?
    ensures c.code.Some? ==> var r := CoursePayload(user, EditForm(c)).value;
      && r.name == c.name && r.code == Some(Upper(c.code.value))
      && (c.credit.Num? ==> r.credit == c.credit)
      && (c.credit.Null? ==> r.credit == Num(0))
      && (c.credit.Undef? ==> r.credit == Null)
      && (c.department.Present? && c.department.value.id.Num? ==> r.department.value.id == c.department.value.id)
      && (!c.department.Present? ==> r.department.value.id == Num(0))
  {
    assert IsBlank("");
  }

  /** The browser refuses the empty form: a create never starts from the
      initial or reset form. */
  lemma EmptyFormIsRefused(departments: seq<Department>)
    ensures !Submittable(EmptyForm, departments)
  {
  }

  /** Straight after the edit button, a course with a name, a code and a
      numeric credit can be submitted whenever some department exists. */
  lemma EditedCourseIsSubmittable(c: Course, departments: seq<Department>)
    requires c.name.Some? && c.name.value != "" && c.code.Some? && c.code.value != ""
    requires c.credit.Num? && |departments| > 0
    ensures Submittable(EditForm(c), departments)
  {
  }

  /** The create-or-update choice of `handleSaveCourse`. */
  function SaveRequest(editMode: bool, editId: Value, payload: Course): (r: Request)
    ensures editMode ==> r.PutCourse? && r.coursePath == ToStr(editId) && r.course == payload
    ensures !editMode ==> r.PostCourse? && r.course == payload
  {
    if editMode then PutCourse(ToStr(editId), payload) else PostCourse(payload)
  }

  /** `departments[0]?.id || ''` */
  function DefaultDepartmentId(departments: seq<Department>): Value {
    if |departments| > 0 then Or(departments[0].id, Str("")) else Str("")
  }

  // ---------------------------------------------------------------------------
  // Page state

  class Page {
    const user: User
    var courses: seq<Course>
    var departments: seq<Department>
    var allEnrollments: seq<Enrollment>
    var deptName: string
    var editMode: bool
    var editId: Value
    var form: CourseForm

    constructor (user: User)
      ensures this.user == user
      ensures courses == [] && departments == [] && allEnrollments == []
      ensures deptName == "" && !editMode && editId == Null && form == EmptyForm
    {
      this.user := user;
      courses, departments, allEnrollments := [], [], [];
      deptName, editMode, editId, form := "", false, Null, EmptyForm;
    }

    /** The roster shown under an owned course. */
    function RosterOf(c: Course): seq<Nested<User>>
      reads this
    {
      Roster(c, allEnrollments)
    }

    /** `loadData`. Outside edit mode, and only when some department was
        fetched, the form's department is set to the first one's id. */
    method LoadData(fetched: Option<Snapshot>)
      modifies this
      ensures fetched.Some? ==> departments == fetched.value.departments
                                && allEnrollments == fetched.value.enrollments
                                && courses == OwnedCourses(user, fetched.value.courses)
      ensures fetched.Some? ==> forall c :: RosterOf(c) == Roster(c, fetched.value.enrollments)
      ensures fetched.Some? && |fetched.value.departments| > 0 && !old(editMode)
              ==> form == old(form).(departmentId := fetched.value.departments[0].id)
      ensures fetched.None? || |fetched.value.departments| == 0 || old(editMode) ==> form == old(form)
      ensures fetched.None? ==> departments == old(departments) && allEnrollments == old(allEnrollments)
                                && courses == old(courses)
      ensures deptName == old(deptName) && editMode == old(editMode) && editId == old(editId)
    {
      if fetched.Some? {
        departments := fetched.value.departments;
        allEnrollments := fetched.value.enrollments;
        courses := OwnedCourses(user, fetched.value.courses);
        if |fetched.value.departments| > 0 && !editMode {
          form := form.(departmentId := fetched.value.departments[0].id);
        }
      }
    }

    /** The department name input. */
    method TypeDepartmentName(name: string)
      modifies this
      ensures deptName == name
      ensures courses == old(courses) && departments == old(departments) && allEnrollments == old(allEnrollments)
      ensures editMode == old(editMode) && editId == old(editId) && form == old(form)
    {
      deptName := name;
    }

    /** The course form inputs. */
    method FillForm(f: CourseForm)
      modifies this
      ensures form == f
      ensures courses == old(courses) && departments == old(departments) && allEnrollments == old(allEnrollments)
      ensures deptName == old(deptName) && editMode == old(editMode) && editId == old(editId)
    {
      form := f;
    }

    /** `handleSaveDepartment`: a blank name sends nothing and changes nothing;
        on success the input is cleared and the page reloads as `LoadData`. */
    method SaveDepartment(succeeded: bool, reload: Option<Snapshot>) returns (request: Option<Request>)
      modifies this
      ensures request == DepartmentRequest(old(deptName))
      ensures request.None? || !succeeded ==> unchanged(this)
      ensures request.Some? && succeeded ==> deptName == ""
      ensures request.Some? && succeeded && reload.Some?
              ==> departments == reload.value.departments && allEnrollments == reload.value.enrollments
                  && courses == OwnedCourses(user, reload.value.courses)
      ensures request.Some? && succeeded && reload.Some? && |reload.value.departments| > 0 && !old(editMode)
              ==> form == old(form).(departmentId := reload.value.departments[0].id)
      ensures request.Some? && succeeded && (reload.None? || |reload.value.departments| == 0 || old(editMode))
              ==> form == old(form)
      ensures request.Some? && succeeded && reload.None?
              ==> departments == old(departments) && allEnrollments == old(allEnrollments) && courses == old(courses)
      ensures editMode == old(editMode) && editId == old(editId)
    {
      request := DepartmentRequest(deptName);
      if request.Some? && succeeded {
        deptName := "";
        LoadData(reload);
      }
    }

    /** `resetForm` */
    method ResetForm()
      modifies this
      ensures !editMode && editId == Null
      ensures form == CourseForm(Str(""), Str(""), Str(""), DefaultDepartmentId(departments))
      ensures courses == old(courses) && departments == old(departments) && allEnrollments == old(allEnrollments)
      ensures deptName == old(deptName)
    {
      editMode := false;
      editId := Null;
      form := CourseForm(Str(""), Str(""), Str(""), DefaultDepartmentId(departments));
    }

    /** The edit button of an owned course: switch to edit mode on that course
        and copy its fields into the form. */
    method StartEdit(c: Course)
      modifies this
      ensures editMode && editId == c.id
      ensures form == EditForm(c)
      ensures courses == old(courses) && departments == old(departments) && allEnrollments == old(allEnrollments)
      ensures deptName == old(deptName)
    {
      editMode := true;
      editId := c.id;
      form := EditForm(c);
    }

    /** `handleSaveCourse`: the browser submits only a `Submittable` form;
        then an update of `editId` is sent in edit mode and a create
        otherwise; on success the form is reset and the page reloads as
        `LoadData`. When the payload cannot be built nothing is sent. */
    method SaveCourse(succeeded: bool, reload: Option<Snapshot>) returns (request: Option<Request>)
      modifies this
      ensures !Submittable(old(form), old(departments)) || CoursePayload(user, old(form)).None?
              ==> request.None? && unchanged(this)
      ensures Submittable(old(form), old(departments)) && CoursePayload(user, old(form)).Some?
              ==> request == Some(SaveRequest(old(editMode), old(editId), CoursePayload(user, old(form)).value))
      ensures request.Some? && !succeeded ==> unchanged(this)
      ensures request.Some? && succeeded ==> !editMode && editId == Null
      ensures request.Some? && succeeded && (reload.None? || |reload.value.departments| == 0)
              ==> form == CourseForm(Str(""), Str(""), Str(""), DefaultDepartmentId(old(departments)))
      ensures request.Some? && succeeded && reload.Some?
              ==> departments == reload.value.departments && allEnrollments == reload.value.enrollments
                  && courses == OwnedCourses(user, reload.value.courses)
      ensures request.Some? && succeeded && reload.Some? && |reload.value.departments| > 0
              ==> form == CourseForm(Str(""), Str(""), Str(""), reload.value.departments[0].id)
      ensures request.Some? && succeeded && reload.None?
              ==> departments == old(departments) && allEnrollments == old(allEnrollments) && courses == old(courses)
      ensures deptName == old(deptName)
    {
      if !Submittable(form, departments) {
        return None;
      }
      var payload := CoursePayload(user, form);
      if payload.None? {
        return None;
      }
      request := Some(SaveRequest(editMode, editId, payload.value));
      if succeeded {
        ResetForm();
        LoadData(reload);
      }
    }

    /** The delete button: after confirmation the course is deleted, with no
        ownership check; a successful delete reloads the page as `LoadData`. */
    method DeleteCourse(c: Course, confirmed: bool, succeeded: bool, reload: Option<Snapshot>)
      returns (request: Option<Request>)
      modifies this
      ensures request == if confirmed then Some(DeleteCourseRequest(ToStr(c.id))) else None
      ensures !confirmed || !succeeded ==> unchanged(this)
      ensures confirmed && succeeded && reload.Some?
              ==> departments == reload.value.departments && allEnrollments == reload.value.enrollments
                  && courses == OwnedCourses(user, reload.value.courses)
      ensures confirmed && succeeded && reload.Some? && |reload.value.departments| > 0 && !old(editMode)
              ==> form == old(form).(departmentId := reload.value.departments[0].id)
      ensures confirmed && succeeded && (reload.None? || |reload.value.departments| == 0 || old(editMode))
              ==> form == old(form)
      ensures confirmed && succeeded && reload.None?
              ==> departments == old(departments) && allEnrollments == old(allEnrollments) && courses == old(courses)
      ensures deptName == old(deptName) && editMode == old(editMode) && editId == old(editId)
    {
      if !confirmed {
        return None;
      }
      request := Some(DeleteCourseRequest(ToStr(c.id)));
      if succeeded {
        LoadData(reload);
      }
    }
  }
}
