/** The student page: which enrollments belong to the signed-in student, the
    credit total and its cap, the catalog filter, the "already enrolled"
    annotation, and the single busy slot `actionLoading` of the enroll and
    unenroll handlers. */
module StudentDashboard {
  import opened Wrappers
  import opened Js
  import opened Seqs
  import opened Records

  /** `MAX_CREDIT` */
  const MaxCredit := 20

  // ---------------------------------------------------------------------------
  // Ownership of enrollments

  /** `String(e.studentId || e.userId || e.student?.id || "")` */
  function OwnerKey(e: Enrollment): string {
    ToStr(Or(Or(Or(e.studentId, e.userId), NestedStudentId(e)), Str("")))
  }

  predicate IsMine(user: User, e: Enrollment) {
    OwnerKey(e) == ToStr(user.id)
  }

  function Mine(user: User): Enrollment -> bool {
    e => IsMine(user, e)
  }

  /** The key is the string form of the first truthy candidate, and it is
      empty exactly when none of the three candidates is truthy. */
  lemma OwnerKeyIsFirstTruthy(e: Enrollment)
    ensures Truthy(e.studentId) ==> OwnerKey(e) == ToStr(e.studentId)
    ensures !Truthy(e.studentId) && Truthy(e.userId) ==> OwnerKey(e) == ToStr(e.userId)
    ensures !Truthy(e.studentId) && !Truthy(e.userId) && Truthy(NestedStudentId(e))
            ==> OwnerKey(e) == ToStr(NestedStudentId(e))
    ensures OwnerKey(e) == ""
            <==> !Truthy(e.studentId) && !Truthy(e.userId) && !Truthy(NestedStudentId(e))
  {
    var first := Or(Or(e.studentId, e.userId), NestedStudentId(e));
    if Truthy(first) {
      TruthyToStrNonEmpty(first);
    }
  }

  /** An enrollment with none of the three identifiers never belongs to a
      user whose id has a non-empty string form. */
  lemma UnkeyedEnrollmentIsNobodys(user: User, e: Enrollment)
    requires !Truthy(e.studentId) && !Truthy(e.userId) && !Truthy(NestedStudentId(e))
    requires ToStr(user.id) != ""
    ensures !IsMine(user, e)
  {
    OwnerKeyIsFirstTruthy(e);
  }

  /** The enrollment filter of `loadData`. */
  function StudentEnrollments(user: User, es: seq<Enrollment>): (r: seq<Enrollment>)
    ensures forall i :: 0 <= i < |r| ==> r[i] in es && IsMine(user, r[i])
    ensures forall j :: 0 <= j < |es| && IsMine(user, es[j]) ==> es[j] in r
  {
    Filter(es, Mine(user))
  }

  /** The student's enrollments are the fetched ones that are theirs, in
      fetched order. */
  lemma StudentEnrollmentsInOrder(user: User, es: seq<Enrollment>) returns (idx: seq<int>)
    ensures SelectedAt(StudentEnrollments(user, es), es, Mine(user), idx)
  {
    idx := FilterSelects(es, Mine(user));
  }

  // ---------------------------------------------------------------------------
  // Credit total and cap

  /** What `sum + (en.course?.credit || 0)` adds to a numeric sum: a missing,
      null, zero or false credit adds 0, `true` adds 1. */
  function CreditOf(e: Enrollment): int {
    var credit := if e.course.Present? then e.course.value.credit else Undef;
    match Or(credit, Num(0))
    case Num(n) => n
    case Bool(b) => if b then 1 else 0
    case _ => 0
  }

  /** `currentTotalCredit`: the `reduce` that sums `CreditOf` from left to right. */
  function TotalCredit(es: seq<Enrollment>): int {
    if |es| == 0 then 0 else TotalCredit(es[..|es| - 1]) + CreditOf(es[|es| - 1])
  }

  lemma {:induction false} TotalCreditAppend(a: seq<Enrollment>, b: seq<Enrollment>)
    ensures TotalCredit(a + b) == TotalCredit(a) + TotalCredit(b)
  {
    if |b| == 0 {
      assert a + b == a;
    } else {
      var n := |b| - 1;
      assert (a + b)[..|a + b| - 1] == a + b[..n];
      TotalCreditAppend(a, b[..n]);
    }
  }

  /** The guard of `handleEnroll`: `total + course.credit > MAX_CREDIT`.
      A string credit is concatenated to the total and the result compared
      as a number; otherwise the credit is converted to a number, `null`
      counting 0. A missing credit makes the sum NaN, and NaN is never greater. */
  predicate CapExceeded(total: int, credit: Value) {
    match credit
    case Str(s) =>
      var sum := StringToNumber(ToStr(Num(total)) + s);
      sum.Some? && sum.value > MaxCredit
    case _ =>
      var c := ToNumber(credit);
      c.Some? && total + c.value > MaxCredit
  }

  /** How each kind of stored credit meets the cap: a number adds to the
      total, `null` adds nothing, and a missing credit never trips it. */
  lemma CapByCreditKind(total: int, n: int)
    ensures CapExceeded(total, Num(n)) <==> total + n > MaxCredit
    ensures CapExceeded(total, Null) <==> total > MaxCredit
    ensures !CapExceeded(total, Undef)
  {
  }

  /** The body posted by `handleEnroll`: `{ userId: user.id, courseId: course.id }`. */
  function EnrollBody(user: User, course: Course): Enrollment {
    NoEnrollment.(userId := user.id, courseId := course.id)
  }

  /** When the cap check passes and the new enrollment of the student carries
      the credit that was checked, the student's total stays within the cap. */
  lemma EnrollStaysWithinCap(user: User, es: seq<Enrollment>, e: Enrollment)
    requires IsMine(user, e)
    requires !CapExceeded(TotalCredit(StudentEnrollments(user, es)), Num(CreditOf(e)))
    ensures StudentEnrollments(user, es + [e]) == StudentEnrollments(user, es) + [e]
    ensures TotalCredit(StudentEnrollments(user, es + [e])) <= MaxCredit
  {
    CapByCreditKind(TotalCredit(StudentEnrollments(user, es)), CreditOf(e));
    assert (es + [e])[..|es|] == es;
    TotalCreditAppend(StudentEnrollments(user, es), [e]);
    assert [e][..0] == [];
  }

  /** Removing one enrollment from the fetched list removes it from the
      student's list, leaving the rest in order, and lowers the total by its
      credit exactly when it was the student's. */
  lemma UnenrollDropsCredit(user: User, es: seq<Enrollment>, i: int)
    requires 0 <= i < |es|
    ensures StudentEnrollments(user, es)
            == StudentEnrollments(user, es[..i])
               + (if IsMine(user, es[i]) then [es[i]] else [])
               + StudentEnrollments(user, es[i + 1..])
    ensures TotalCredit(StudentEnrollments(user, es[..i] + es[i + 1..]))
            == TotalCredit(StudentEnrollments(user, es)) - (if IsMine(user, es[i]) then CreditOf(es[i]) else 0)
  {
    var p := Mine(user);
    var a, b := es[..i], es[i + 1..];
    assert es == a + [es[i]] + b;
    FilterAppend(a + [es[i]], b, p);
    FilterAppend(a, [es[i]], p);
    FilterAppend(a, b, p);
    assert [es[i]][..0] == [];
    var mid := if IsMine(user, es[i]) then [es[i]] else [];
    assert Filter([es[i]], p) == mid;
    TotalCreditAppend(Filter(a, p) + mid, Filter(b, p));
    TotalCreditAppend(Filter(a, p), mid);
    TotalCreditAppend(Filter(a, p), Filter(b, p));
    if IsMine(user, es[i]) {
      assert TotalCredit(mid) == CreditOf(es[i]) by { assert mid[..0] == []; }
    }
  }

  /** The body posted by this page belongs to the student, as far as the
      filter can tell, only when the student's id is truthy or the empty
      string: an id of 0 is lost in the `||` chain. */
  lemma PostedEnrollmentOwnership(user: User, course: Course)
    ensures IsMine(user, EnrollBody(user, course)) <==> Truthy(user.id) || user.id == Str("")
  {
    var body := EnrollBody(user, course);
    OwnerKeyIsFirstTruthy(body);
    ToStrEmpty(user.id);
  }

  // ---------------------------------------------------------------------------
  // Catalog filter

  /** `selectedDept === 'All' || String(course.department?.id) === String(selectedDept)` */
  predicate InDepartment(c: Course, selected: Value) {
    selected == Str("All") || ToStr(DepartmentId(c)) == ToStr(selected)
  }

  /** `field?.toLowerCase().includes(term.toLowerCase())`, false when absent. */
  predicate FieldContains(field: Option<string>, term: string) {
    field.Some? && Contains(Lower(field.value), Lower(term))
  }

  predicate MatchesSearch(c: Course, term: string) {
    FieldContains(c.name, term) || FieldContains(c.teacherName, term)
  }

  function Shown(selected: Value, term: string): Course -> bool {
    c => InDepartment(c, selected) && MatchesSearch(c, term)
  }

  /** `filteredCourses` */
  function CatalogView(courses: seq<Course>, selected: Value, term: string): (r: seq<Course>)
    ensures forall i :: 0 <= i < |r| ==> r[i] in courses && InDepartment(r[i], selected) && MatchesSearch(r[i], term)
    ensures forall j :: 0 <= j < |courses| && InDepartment(courses[j], selected) && MatchesSearch(courses[j], term)
                        ==> courses[j] in r
  {
    Filter(courses, Shown(selected, term))
  }

  /** The catalog view keeps the catalog's order. */
  lemma CatalogViewInOrder(courses: seq<Course>, selected: Value, term: string) returns (idx: seq<int>)
    ensures SelectedAt(CatalogView(courses, selected, term), courses, Shown(selected, term), idx)
  {
    idx := FilterSelects(courses, Shown(selected, term));
  }

  predicate HasNameOrTeacher(c: Course) {
    c.name.Some? || c.teacherName.Some?
  }

  /** With every department selected and an empty search, the view is the
      catalog minus the courses that have neither a name nor a teacher. */
  lemma {:induction false} EmptySearchShowsNamedCourses(courses: seq<Course>)
    ensures CatalogView(courses, Str("All"), "") == Filter(courses, c => HasNameOrTeacher(c))
  {
    if |courses| > 0 {
      var c := courses[|courses| - 1];
      EmptySearchShowsNamedCourses(courses[..|courses| - 1]);
      if c.name.Some? {
        ContainsEmpty(Lower(c.name.value));
      }
      if c.teacherName.Some? {
        ContainsEmpty(Lower(c.teacherName.value));
      }
    }
  }

  /** Search ignores the case of ASCII letters on both sides. */
  lemma SearchIgnoresCase(c: Course, term: string)
    ensures MatchesSearch(c, Upper(term)) == MatchesSearch(c, term)
  {
    LowerOfUpper(term);
  }

  // ---------------------------------------------------------------------------
  // "Already enrolled" annotation and the enroll button

  function Annotates(course: Course): Enrollment -> bool {
    e => ToStr(NestedCourseId(e)) == ToStr(course.id)
  }

  /** `myEnrollments.find(e => String(e.course?.id) === String(course.id))`,
      as an index into the student's list. */
  function EnrollmentFor(mine: seq<Enrollment>, course: Course): (r: Option<nat>)
    ensures r.Some? ==> r.value < |mine| && ToStr(NestedCourseId(mine[r.value])) == ToStr(course.id)
    ensures r.Some? ==> forall j :: 0 <= j < r.value ==> ToStr(NestedCourseId(mine[j])) != ToStr(course.id)
    ensures r.None? ==> forall j :: 0 <= j < |mine| ==> ToStr(NestedCourseId(mine[j])) != ToStr(course.id)
  {
    FindFirst(mine, Annotates(course))
  }

  /** `isEnrolled` */
  function MarkedEnrolled(mine: seq<Enrollment>, course: Course): (r: bool)
    ensures r <==> exists j :: 0 <= j < |mine| && ToStr(NestedCourseId(mine[j])) == ToStr(course.id)
  {
    EnrollmentFor(mine, course).Some?
  }

  /** `disabled={isEnrolled || actionLoading === course.id}` */
  predicate ButtonDisabled(mine: seq<Enrollment>, busy: Value, course: Course) {
    MarkedEnrolled(mine, course) || busy == course.id
  }

  /** The annotation reads only the nested `course` object. The body that this
      page posts carries a flat `courseId` and no nested course, so, stored as
      sent, it neither marks its course as enrolled nor adds any credit. */
  lemma PostedEnrollmentIsNotAnnotated(user: User, mine: seq<Enrollment>, course: Course)
    requires ToStr(course.id) != "undefined"
    ensures MarkedEnrolled(mine + [EnrollBody(user, course)], course) == MarkedEnrolled(mine, course)
    ensures TotalCredit(mine + [EnrollBody(user, course)]) == TotalCredit(mine)
  {
    var body := EnrollBody(user, course);
    assert (mine + [body])[..|mine|] == mine;
    assert ToStr(NestedCourseId(body)) == "undefined";
  }

  // ---------------------------------------------------------------------------
  // Page state

  class Page {
    const user: User
    var departments: seq<Department>
    var courses: seq<Course>
    var myEnrollments: seq<Enrollment>
    var selectedDept: Value
    var searchTerm: string
    /** The id of the course whose request is outstanding, or null. */
    var actionLoading: Value

    constructor (user: User)
      ensures this.user == user
      ensures departments == [] && courses == [] && myEnrollments == []
      ensures selectedDept == Str("All") && searchTerm == "" && actionLoading == Null
    {
      this.user := user;
      departments, courses, myEnrollments := [], [], [];
      selectedDept, searchTerm, actionLoading := Str("All"), "", Null;
    }

    function CurrentTotalCredit(): int
      reads this
    {
      TotalCredit(myEnrollments)
    }

    function FilteredCourses(): seq<Course>
      reads this
    {
      CatalogView(courses, selectedDept, searchTerm)
    }

    predicate IsEnrolled(course: Course)
      reads this
    {
      MarkedEnrolled(myEnrollments, course)
    }

    predicate EnrollDisabled(course: Course)
      reads this
    {
      ButtonDisabled(myEnrollments, actionLoading, course)
    }

    /** `loadData`: `fetched` is `None` when any of the three requests failed,
        in which case the error is logged and nothing changes. */
    method LoadData(fetched: Option<Snapshot>)
      modifies this
      ensures fetched.Some? ==> departments == fetched.value.departments && courses == fetched.value.courses
      ensures fetched.Some? ==> myEnrollments == StudentEnrollments(user, fetched.value.enrollments)
      ensures fetched.None? ==> departments == old(departments) && courses == old(courses)
      ensures fetched.None? ==> myEnrollments == old(myEnrollments)
      ensures selectedDept == old(selectedDept) && searchTerm == old(searchTerm)
      ensures actionLoading == old(actionLoading)
    {
      if fetched.Some? {
        departments := fetched.value.departments;
        courses := fetched.value.courses;
        myEnrollments := StudentEnrollments(user, fetched.value.enrollments);
      }
    }

    /** `handleEnroll` up to the moment the request is sent. A rejected
        attempt sends nothing and changes nothing; otherwise the course is
        marked busy, so its button is disabled while the request is out. */
    method StartEnroll(course: Course) returns (request: Option<Request>)
      modifies this
      ensures CapExceeded(old(CurrentTotalCredit()), course.credit) ==> request.None? && unchanged(this)
      ensures !CapExceeded(old(CurrentTotalCredit()), course.credit)
              ==> request == Some(PostEnrollment(EnrollBody(user, course)))
                  && actionLoading == course.id && EnrollDisabled(course)
      ensures departments == old(departments) && courses == old(courses) && myEnrollments == old(myEnrollments)
      ensures selectedDept == old(selectedDept) && searchTerm == old(searchTerm)
    {
      if CapExceeded(TotalCredit(myEnrollments), course.credit) {
        return None;
      }
      actionLoading := course.id;
      request := Some(PostEnrollment(EnrollBody(user, course)));
    }

    /** `handleUnenroll` up to the moment the request is sent. Declining the
        confirmation sends nothing and changes nothing. */
    method StartUnenroll(enrollId: Value, courseId: Value, confirmed: bool) returns (request: Option<Request>)
      modifies this
      ensures !confirmed ==> request.None? && unchanged(this)
      ensures confirmed ==> request == Some(DeleteEnrollment(ToStr(enrollId))) && actionLoading == courseId
      ensures departments == old(departments) && courses == old(courses) && myEnrollments == old(myEnrollments)
      ensures selectedDept == old(selectedDept) && searchTerm == old(searchTerm)
    {
      if !confirmed {
        return None;
      }
      actionLoading := courseId;
      request := Some(DeleteEnrollment(ToStr(enrollId)));
    }

    /** The rest of either handler: on success the page reloads (`reload` is
        that reload's outcome); in every case the busy slot is cleared. */
    method FinishAction(succeeded: bool, reload: Option<Snapshot>)
      modifies this
      ensures actionLoading == Null
      ensures succeeded && reload.Some? ==> departments == reload.value.departments && courses == reload.value.courses
      ensures succeeded && reload.Some? ==> myEnrollments == StudentEnrollments(user, reload.value.enrollments)
      ensures !(succeeded && reload.Some?) ==> departments == old(departments) && courses == old(courses)
      ensures !(succeeded && reload.Some?) ==> myEnrollments == old(myEnrollments)
      ensures selectedDept == old(selectedDept) && searchTerm == old(searchTerm)
      ensures forall c :: EnrollDisabled(c) <==> IsEnrolled(c) || c.id == Null
    {
      if succeeded {
        LoadData(reload);
      }
      actionLoading := Null;
    }

    /** A department button (`'All'` or a department's id). */
    method SelectDepartment(selected: Value)
      modifies this
      ensures selectedDept == selected
      ensures departments == old(departments) && courses == old(courses) && myEnrollments == old(myEnrollments)
      ensures searchTerm == old(searchTerm) && actionLoading == old(actionLoading)
      ensures forall c :: c in FilteredCourses() <==> c in courses && InDepartment(c, selected) && MatchesSearch(c, searchTerm)
    {
      selectedDept := selected;
    }

    /** The search box. */
    method Search(term: string)
      modifies this
      ensures searchTerm == term
      ensures departments == old(departments) && courses == old(courses) && myEnrollments == old(myEnrollments)
      ensures selectedDept == old(selectedDept) && actionLoading == old(actionLoading)
      ensures forall c :: c in FilteredCourses() <==> c in courses && InDepartment(c, selectedDept) && MatchesSearch(c, term)
    {
      searchTerm := term;
    }
  }
}
