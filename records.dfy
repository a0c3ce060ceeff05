/** The records of the four remote collections (users, departments, courses,
    enrollments) as the pages read them, and the write requests they send. */
module Records {
  import opened Wrappers
  import opened Js

  /** An object-valued field: missing, JSON `null`, or an object. Optional
      chaining (`x?.f`) treats the first two alike; `x && x.f` does not. */
  datatype Nested<T> = Absent | NullObject | Present(value: T)

  /** A row of `/users`; it is also the signed-in identity. */
  datatype User = User(id: Value, name: Option<string>, email: Option<string>, password: Value, role: Option<string>)

  /** A row of `/departments`, or the `department` object nested in a course. */
  datatype Department = Department(id: Value, name: Option<string>)

  /** A row of `/courses`, or the `course` object nested in an enrollment.
      The numeric fields hold whatever JSON value was stored (`Undef` when
      missing). */
  datatype Course = Course(
    id: Value,
    name: Option<string>,
    code: Option<string>,
    credit: Value,
    teacherName: Option<string>,
    capacity: Value,
    enrolled: Value,
    department: Nested<Department>)

  /** A row of `/enrollments`. The student and the course may be referenced by
      flat identifiers, by nested objects, or not at all. */
  datatype Enrollment = Enrollment(
    id: Value,
    studentId: Value,
    userId: Value,
    student: Nested<User>,
    courseId: Value,
    course: Nested<Course>,
    courseName: Value,
    courseCode: Value,
    enrollDate: Value)

  /** One fetch of the collections a page reads. */
  datatype Snapshot = Snapshot(departments: seq<Department>, courses: seq<Course>, enrollments: seq<Enrollment>)

  /** A write request. Paths are given by the string placed after the
      collection name in the URL (`/courses/<id>`). */
  datatype Request =
    | PostEnrollment(enrollment: Enrollment)
    | DeleteEnrollment(enrollmentPath: string)
    | PostCourse(course: Course)
    | PutCourse(coursePath: string, course: Course)
    | DeleteCourseRequest(coursePath: string)
    | PostDepartment(departmentName: string)

  /** An enrollment body with every field absent. */
  const NoEnrollment := Enrollment(Undef, Undef, Undef, Absent, Undef, Absent, Undef, Undef, Undef)

  /** A course body with every field absent. */
  const NoCourse := Course(Undef, None, None, Undef, None, Undef, Undef, Absent)

  /** An optional string as a JavaScript value. */
  function Text(s: Option<string>): Value {
    if s.Some? then Str(s.value) else Undef
  }

  /** `e.student?.id` */
  function NestedStudentId(e: Enrollment): Value {
    if e.student.Present? then e.student.value.id else Undef
  }

  /** `e.course?.id` */
  function NestedCourseId(e: Enrollment): Value {
    if e.course.Present? then e.course.value.id else Undef
  }

  /** `c.department?.id` */
  function DepartmentId(c: Course): Value {
    if c.department.Present? then c.department.value.id else Undef
  }
}
