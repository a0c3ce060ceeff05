/** The older single dashboard (`Dashboard.jsx`), which the router no longer
    mounts: one page for both roles, with prompt-driven course management and
    an enroll handler that applies no client-side check. */
module Dashboard {
  import opened Wrappers
  import opened Js
  import opened Seqs
  import opened Records
  import TeacherDashboard

  /** `enroll.student && enroll.student.id`: a missing student gives
      undefined and a null one gives null; an object is truthy, so its id. */
  function LegacyStudentRef(e: Enrollment): Value {
    match e.student
    case Absent => Undef
    case NullObject => Null
    case Present(u) => u.id
  }

  /** `String(enroll.studentId || (enroll.student && enroll.student.id))`; the
      user id field is not consulted. */
  function LegacyOwnerKey(e: Enrollment): string {
    ToStr(Or(e.studentId, LegacyStudentRef(e)))
  }

  predicate IsMineLegacy(user: User, e: Enrollment) {
    LegacyOwnerKey(e) == ToStr(user.id)
  }

  function LegacyMine(user: User): Enrollment -> bool {
    e => IsMineLegacy(user, e)
  }

  /** An enrollment with neither a truthy `studentId` nor a `student` object
      has the key "undefined" when the student is missing and "null" when it
      is null, so it is listed exactly for a user whose id converts to that. */
  lemma UnkeyedLegacyEnrollmentKey(user: User, e: Enrollment)
    requires !Truthy(e.studentId) && !e.student.Present?
    ensures e.student.Absent? ==> LegacyOwnerKey(e) == "undefined"
    ensures e.student.NullObject? ==> LegacyOwnerKey(e) == "null"
    ensures e.student.Absent? ==> (IsMineLegacy(user, e) <==> ToStr(user.id) == "undefined")
    ensures e.student.NullObject? ==> (IsMineLegacy(user, e) <==> ToStr(user.id) == "null")
  {
  }

  /** What the page lists as "my courses": enrollments for a student,
      courses for anyone else. */
  datatype MyList = EnrolledList(enrollments: seq<Enrollment>) | TaughtList(courses: seq<Course>)

  /** The role split of `loadData`. */
  function MyCoursesFor(user: User, courses: seq<Course>, es: seq<Enrollment>): (r: MyList)
    ensures r.EnrolledList? <==> user.role == Some("student")
    ensures r.EnrolledList? ==> forall i :: 0 <= i < |r.enrollments| ==> r.enrollments[i] in es && IsMineLegacy(user, r.enrollments[i])
    ensures r.EnrolledList? ==> forall j :: 0 <= j < |es| && IsMineLegacy(user, es[j]) ==> es[j] in r.enrollments
    ensures r.TaughtList? ==> forall i :: 0 <= i < |r.courses| ==> r.courses[i] in courses && r.courses[i].teacherName == user.name
    ensures r.TaughtList? ==> forall j :: 0 <= j < |courses| && courses[j].teacherName == user.name ==> courses[j] in r.courses
  {
    if user.role == Some("student") then EnrolledList(Filter(es, LegacyMine(user)))
    else TaughtList(TeacherDashboard.OwnedCourses(user, courses))
  }

  /** A prompt answer that passes `if (answer)`: not cancelled (null) and not empty. */
  predicate Answered(a: Option<string>) {
    a.Some? && a.value != ""
  }

  /** The body of `handleAddCourse`, sent only when all three answers are given. */
  function AddCoursePayload(user: User, name: Option<string>, code: Option<string>, capacity: Option<string>)
    : (r: Option<Course>)
    ensures r.Some? <==> Answered(name) && Answered(code) && Answered(capacity)
    ensures r.Some? ==> r.value.name == name && r.value.code == code && r.value.teacherName == user.name
    ensures r.Some? ==> r.value.capacity == JsonNumber(ParseInt(capacity.value))
    ensures r.Some? ==> r.value.credit == Num(3) && r.value.enrolled == Num(0) && r.value.department.Absent?
  {
    if Answered(name) && Answered(code) && Answered(capacity) then
      Some(NoCourse.(name := name, code := code, teacherName := user.name,
                     capacity := JsonNumber(ParseInt(capacity.value)), enrolled := Num(0), credit := Num(3)))
    else None
  }

  /** The body of `handleEditCourse`: `{...course, name, code, capacity}`. */
  function EditPayload(course: Course, newName: Option<string>, newCode: Option<string>, newCapacity: Option<string>)
    : (r: Option<Course>)
    ensures r.Some? <==> Answered(newName) && Answered(newCode) && Answered(newCapacity)
    ensures r.Some? ==> r.value.name == newName && r.value.code == newCode
                        && r.value.capacity == JsonNumber(ParseInt(newCapacity.value))
    ensures r.Some? ==> r.value.(name := course.name, code := course.code, capacity := course.capacity) == course
  {
    if Answered(newName) && Answered(newCode) && Answered(newCapacity) then
      Some(course.(name := newName, code := newCode, capacity := JsonNumber(ParseInt(newCapacity.value))))
    else None
  }

  /** The body of `handleEnroll`: `{ studentId: user.id, courseId, enrollDate }`. */
  function LegacyEnrollBody(user: User, courseId: Value, now: string): Enrollment {
    NoEnrollment.(studentId := user.id, courseId := courseId, enrollDate := Str(now))
  }

  /** The page lists its own posted enrollment back when the user's id is
      truthy; a falsy id is lost in the `||` and the key becomes "undefined". */
  lemma LegacyBodyOwnership(user: User, courseId: Value, now: string)
    ensures IsMineLegacy(user, LegacyEnrollBody(user, courseId, now))
            <==> Truthy(user.id) || ToStr(user.id) == "undefined"
  {
  }

  /** An enrollment carrying only `userId`, as the student page posts it, is
      listed here only for a user whose id converts to "undefined" or "null". */
  lemma UserIdOnlyEnrollmentIsUnseen(user: User, e: Enrollment)
    requires !Truthy(e.studentId) && !e.student.Present?
    requires ToStr(user.id) != "undefined" && ToStr(user.id) != "null"
    ensures !IsMineLegacy(user, e)
  {
  }

  /** `item.course && item.course.<field>` for a field read by `get`. */
  function CourseField(item: Enrollment, get: Course -> Option<string>): Value {
    match item.course
    case Absent => Undef
    case NullObject => Null
    case Present(c) => Text(get(c))
  }

  /** `item.courseName || (item.course && item.course.name)` */
  function ItemName(item: Enrollment): Value {
    Or(item.courseName, CourseField(item, (c: Course) => c.name))
  }

  /** `item.courseCode || (item.course && item.course.code)` */
  function ItemCode(item: Enrollment): Value {
    Or(item.courseCode, CourseField(item, (c: Course) => c.code))
  }

  /** The label shows the flat field when it is truthy and the nested course's
      field otherwise. */
  lemma ItemLabelFallsBack(item: Enrollment)
    ensures Truthy(item.courseName) ==> ItemName(item) == item.courseName
    ensures !Truthy(item.courseName) && item.course.Present? ==> ItemName(item) == Text(item.course.value.name)
    ensures !Truthy(item.courseName) && item.course.Absent? ==> ItemName(item) == Undef
    ensures !Truthy(item.courseName) && item.course.NullObject? ==> ItemName(item) == Null
    ensures Truthy(item.courseCode) ==> ItemCode(item) == item.courseCode
    ensures !Truthy(item.courseCode) && item.course.Present? ==> ItemCode(item) == Text(item.course.value.code)
    ensures !Truthy(item.courseCode) && item.course.Absent? ==> ItemCode(item) == Undef
    ensures !Truthy(item.courseCode) && item.course.NullObject? ==> ItemCode(item) == Null
  {
  }

  /** One fetch of the two collections this page reads. */
  datatype Fetch = Fetch(courses: seq<Course>, enrollments: seq<Enrollment>)

  class Page {
    const user: Option<User>
    var courses: seq<Course>
    var myCourses: MyList
    var loading: bool

    constructor (user: Option<User>)
      ensures this.user == user && courses == [] && myCourses == EnrolledList([]) && !loading
    {
      this.user := user;
      courses, myCourses, loading := [], EnrolledList([]), false;
    }

    /** `loadData`: nothing without a user; otherwise `loading` is raised for
        the fetch and is false afterwards whether or not the fetch succeeded. */
    method LoadData(fetched: Option<Fetch>)
      modifies this
      ensures user.None? ==> unchanged(this)
      ensures user.Some? ==> !loading
      ensures user.Some? && fetched.Some? ==> courses == fetched.value.courses
      ensures user.Some? && fetched.Some?
              ==> myCourses == MyCoursesFor(user.value, fetched.value.courses, fetched.value.enrollments)
      ensures user.Some? && fetched.None? ==> courses == old(courses) && myCourses == old(myCourses)
    {
      if user.None? {
        return;
      }
      loading := true;
      if fetched.Some? {
        courses := fetched.value.courses;
        myCourses := MyCoursesFor(user.value, fetched.value.courses, fetched.value.enrollments);
      }
      loading := false;
    }

    /** `handleAddCourse`: asks three prompts and posts only if all are answered. */
    method AddCourse(name: Option<string>, code: Option<string>, capacity: Option<string>,
                     succeeded: bool, reload: Option<Fetch>) returns (request: Option<Request>)
      requires user.Some?
      modifies this
      ensures request.Some? <==> AddCoursePayload(user.value, name, code, capacity).Some?
      ensures request.Some? ==> request.value == PostCourse(AddCoursePayload(user.value, name, code, capacity).value)
      ensures request.None? || !succeeded ==> unchanged(this)
      ensures request.Some? && succeeded ==> !loading
      ensures request.Some? && succeeded && reload.Some?
              ==> courses == reload.value.courses
                  && myCourses == MyCoursesFor(user.value, reload.value.courses, reload.value.enrollments)
      ensures request.Some? && succeeded && reload.None? ==> courses == old(courses) && myCourses == old(myCourses)
    {
      var payload := AddCoursePayload(user.value, name, code, capacity);
      if payload.None? {
        return None;
      }
      request := Some(PostCourse(payload.value));
      if succeeded {
        LoadData(reload);
      }
    }

    /** `handleEditCourse`: puts the whole course back with its name, code and
        capacity replaced, only if all three prompts are answered. */
    method EditCourse(course: Course, newName: Option<string>, newCode: Option<string>, newCapacity: Option<string>,
                      succeeded: bool, reload: Option<Fetch>) returns (request: Option<Request>)
      requires user.Some?
      modifies this
      ensures request.Some? <==> EditPayload(course, newName, newCode, newCapacity).Some?
      ensures request.Some? ==> request.value == PutCourse(ToStr(course.id), EditPayload(course, newName, newCode, newCapacity).value)
      ensures request.None? || !succeeded ==> unchanged(this)
      ensures request.Some? && succeeded ==> !loading
      ensures request.Some? && succeeded && reload.Some?
              ==> courses == reload.value.courses
                  && myCourses == MyCoursesFor(user.value, reload.value.courses, reload.value.enrollments)
      ensures request.Some? && succeeded && reload.None? ==> courses == old(courses) && myCourses == old(myCourses)
    {
      var payload := EditPayload(course, newName, newCode, newCapacity);
      if payload.None? {
        return None;
      }
      request := Some(PutCourse(ToStr(course.id), payload.value));
      if succeeded {
        LoadData(reload);
      }
    }

    /** `handleDeleteCourse`: deletes after confirmation. */
    method DeleteCourse(courseId: Value, confirmed: bool, succeeded: bool, reload: Option<Fetch>)
      returns (request: Option<Request>)
      requires user.Some?
      modifies this
      ensures request == if confirmed then Some(DeleteCourseRequest(ToStr(courseId))) else None
      ensures request.None? || !succeeded ==> unchanged(this)
      ensures request.Some? && succeeded ==> !loading
      ensures request.Some? && succeeded && reload.Some?
              ==> courses == reload.value.courses
                  && myCourses == MyCoursesFor(user.value, reload.value.courses, reload.value.enrollments)
      ensures request.Some? && succeeded && reload.None? ==> courses == old(courses) && myCourses == old(myCourses)
    {
      if !confirmed {
        return None;
      }
      request := Some(DeleteCourseRequest(ToStr(courseId)));
      if succeeded {
        LoadData(reload);
      }
    }

    /** `handleEnroll`: always posts; no credit cap and no duplicate check. */
    method Enroll(courseId: Value, now: string, succeeded: bool, reload: Option<Fetch>)
      returns (request: Option<Request>)
      requires user.Some?
      modifies this
      ensures request == Some(PostEnrollment(LegacyEnrollBody(user.value, courseId, now)))
      ensures !succeeded ==> unchanged(this)
      ensures succeeded ==> !loading
      ensures succeeded && reload.Some?
              ==> courses == reload.value.courses
                  && myCourses == MyCoursesFor(user.value, reload.value.courses, reload.value.enrollments)
      ensures succeeded && reload.None? ==> courses == old(courses) && myCourses == old(myCourses)
    {
      request := Some(PostEnrollment(LegacyEnrollBody(user.value, courseId, now)));
      if succeeded {
        LoadData(reload);
      }
    }

    /** `handleCancelEnroll`: deletes the enrollment after confirmation. */
    method CancelEnroll(enrollmentId: Value, confirmed: bool, succeeded: bool, reload: Option<Fetch>)
      returns (request: Option<Request>)
      requires user.Some?
      modifies this
      ensures request == if confirmed then Some(DeleteEnrollment(ToStr(enrollmentId))) else None
      ensures request.None? || !succeeded ==> unchanged(this)
      ensures request.Some? && succeeded ==> !loading
      ensures request.Some? && succeeded && reload.Some?
              ==> courses == reload.value.courses
                  && myCourses == MyCoursesFor(user.value, reload.value.courses, reload.value.enrollments)
      ensures request.Some? && succeeded && reload.None? ==> courses == old(courses) && myCourses == old(myCourses)
    {
      if !confirmed {
        return None;
      }
      request := Some(DeleteEnrollment(ToStr(enrollmentId)));
      if succeeded {
        LoadData(reload);
      }
    }
  }
}
