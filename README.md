# Course enrollment front end: the record-joining and validation rules

This project models the logic inside the page handlers of a React front end
for a course-enrollment system. Students browse a course catalog and enroll or
unenroll. Teachers create departments and courses and see who attends their
courses. Every page fetches whole collections (`/users`, `/departments`,
`/courses`, `/enrollments`) and joins them on the client.

The model covers:

- **JavaScript value rules** (`js.dfy`, module `Js`). Identifiers are compared
  through `String(...)` applied to a `||` fallback chain. The module gives a
  primitive `Value` type with explicit `Truthy`, `Or` (`||`), `ToStr`
  (`String`), `ToNumber` (`Number`) and `ParseInt` (`parseInt`) functions.
  It also has ASCII `Lower`/`Upper`, `Contains` (`includes`) and `IsBlank`
  (`!s.trim()`). Because `||` skips falsy values, an id of `0` falls through
  to the next candidate.
- **Filter and find** (`seqs.dfy`, module `Seqs`). `Filter` is
  `Array.prototype.filter` and `FindFirst` is `findIndex`. They come with
  proofs that a filter is an order-preserving subsequence holding every match.
- **The records** (`records.dfy`) and the write requests the pages send.
- **The student page** (`student_dashboard.dfy`):
  - which enrollments belong to the student (`studentId || userId || student?.id || ""`);
  - the credit total and the 20-credit cap;
  - the department and search filter of the catalog;
  - the "already enrolled" annotation;
  - the single busy slot `actionLoading`.
  Each handler is split at its `await`: `StartEnroll`/`StartUnenroll` run up
  to the request, and `FinishAction` is the rest. This makes the busy state
  while a request is outstanding visible in the model.
- **The teacher page** (`teacher_dashboard.dfy`):
  - course ownership by display name;
  - the roster join (`course?.id || courseId`);
  - the department and course payloads;
  - the create/edit mode of the course form.
- **The older single dashboard** (`dashboard.dfy`). The router no longer mounts
  it. It has a role split, prompt-guarded add and edit, and an enroll handler
  with no client-side check.
- **The login page's `find` and the `/dashboard` route** (`login.dfy`, `app.dfy`).

Fetched collections are parameters (`Option<Snapshot>`: `None` when a fetch
failed). Whether a write request succeeded is a `bool` parameter. Confirm
dialogs and prompts are parameters too. Each handler returns the request it
would send, or `None` when it sends nothing.

Some facts about the pages that the model keeps as they are:

- A missing identifier is compared as the string `""` on the student page.
  On the old dashboard it is compared as `"undefined"`, or as `"null"` for a
  null `student`.
- There is no duplicate-enrollment check beyond the disabled button.
- There is no ownership check before editing or deleting a course.
- `actionLoading` is one slot, not a set keyed by target.
- Enrollments are never resolved against the course collection: the pages read
  the nested `course` object.
- Stored fields keep their JSON kind. A numeric field (`credit`, `capacity`,
  `enrolled`) holds whatever value was stored, and a nested object (`student`,
  `course`, `department`) is missing, `null` or present. Optional chaining
  treats the last two alike; `x && x.f` does not.
- The course form is checked by the browser's constraint validation
  (`required`, `type="number"`) before its handler runs. The model states that
  check as `TeacherDashboard.Submittable`.

The annotation and the credit total read only the nested `course` object. The
student page posts `{ userId, courseId }` with no nested course. So a record
stored exactly as sent neither marks its course as enrolled nor adds credit
(`PostedEnrollmentIsNotAnnotated`). Whether that happens depends on the backend,
so it is stated as a property rather than a defect.

## Model

| member | source | states |
|---|---|---|
| `Js.ToStrEmpty` | src/pages/StudentDashboard.jsx:35 | `String(v)` is `""` exactly when `v` is the empty string |
| `Js.NumberOfString` | src/pages/TeacherDashboard.jsx:55 | `Number(String(n)) === n` for every integer `n`: typing the decimal spelling of a credit stores that credit |
| `Js.NumStringsInjective` | src/pages/StudentDashboard.jsx:33-36 | two numbers have equal `String` forms exactly when they are equal |
| `Js.ParseIntOfString` | src/pages/Dashboard.jsx:64 | `parseInt(String(n))` gives `n` back |
| `Js.ParseIntReadsHex` | src/pages/Dashboard.jsx:64 | without a radix, `parseInt` reads `0x` followed by hexadecimal digits as a base-16 number |
| `Js.TrimStart` | src/pages/Dashboard.jsx:64 | the white space `parseInt` skips is a prefix; what is left starts with a non-space; nothing is left exactly for a blank string |
| `Js.Lower` | src/pages/StudentDashboard.jsx:82-85 | lower-casing keeps the length and leaves no ASCII upper-case letter |
| `Js.Upper` | src/pages/TeacherDashboard.jsx:54 | upper-casing keeps the length and leaves no ASCII lower-case letter |
| `Js.LowerOfUpper` | src/pages/Login.jsx:18 | a string and its upper-cased form are equal ignoring case |
| `Js.ContainsAt` | src/pages/StudentDashboard.jsx:84-85 | `includes` holds whenever the term occurs at some offset |
| `Js.ContainsHasOffset` | src/pages/StudentDashboard.jsx:84-85 | whenever `includes` holds, the term occurs at the returned offset |
| `Seqs.Filter` | src/pages/StudentDashboard.jsx:34-37 | a filter keeps only matching elements of the input, and every matching element |
| `Seqs.FilterSelects` | src/pages/StudentDashboard.jsx:34-37 | a filter is the input at strictly increasing positions: exactly the matching ones, in order |
| `Seqs.FilterAppend` | src/pages/StudentDashboard.jsx:34-37 | filtering a concatenation is concatenating the filtered parts |
| `Seqs.FindFirst` | src/pages/StudentDashboard.jsx:160-162 | `find` returns the first matching position, or nothing when no element matches |
| `StudentDashboard.OwnerKeyIsFirstTruthy` | src/pages/StudentDashboard.jsx:35 | the owner key is the `String` of the first truthy of `studentId`, `userId`, `student.id`; it is `""` exactly when none is truthy |
| `StudentDashboard.UnkeyedEnrollmentIsNobodys` | src/pages/StudentDashboard.jsx:35-36 | an enrollment with none of the three ids never matches a user whose id string is non-empty |
| `StudentDashboard.StudentEnrollments` | src/pages/StudentDashboard.jsx:33-37 | the student's enrollments are exactly the fetched ones whose owner key equals `String(user.id)` |
| `StudentDashboard.StudentEnrollmentsInOrder` | src/pages/StudentDashboard.jsx:33-37 | the student's enrollments are an order-preserving subsequence of the fetched list holding every match |
| `StudentDashboard.TotalCreditAppend` | src/pages/StudentDashboard.jsx:45 | the credit total of a concatenation is the sum of the totals (missing course or credit counts 0) |
| `StudentDashboard.CapByCreditKind` | src/pages/StudentDashboard.jsx:48 | a numeric credit is added to the total before the comparison with 20, a `null` credit adds nothing, and a missing credit never trips the cap |
| `StudentDashboard.EnrollStaysWithinCap` | src/pages/StudentDashboard.jsx:45-54 | when the cap check passes and the new enrollment carries the checked credit, the student's list gains it at the end and the total stays at most 20 |
| `StudentDashboard.UnenrollDropsCredit` | src/pages/StudentDashboard.jsx:63-69 | deleting one fetched enrollment removes it from the student's list, keeps the rest in order, and lowers the total by its credit exactly when it was the student's |
| `StudentDashboard.PostedEnrollmentOwnership` | src/pages/StudentDashboard.jsx:33-54 | the posted `{userId, courseId}` body is recognised as the student's exactly when the id is truthy or `""`; an id of 0 is lost |
| `StudentDashboard.CatalogView` | src/pages/StudentDashboard.jsx:77-88 | a course is shown exactly when it is in the selected department (or `'All'`) and its name or teacher contains the search term |
| `StudentDashboard.CatalogViewInOrder` | src/pages/StudentDashboard.jsx:77-88 | the shown courses are an order-preserving subsequence of the catalog |
| `StudentDashboard.EmptySearchShowsNamedCourses` | src/pages/StudentDashboard.jsx:78-85 | with `'All'` and an empty term, exactly the courses that have a name or a teacher are shown |
| `StudentDashboard.SearchIgnoresCase` | src/pages/StudentDashboard.jsx:82-85 | searching for the upper-cased term finds the same courses |
| `StudentDashboard.EnrollmentFor` | src/pages/StudentDashboard.jsx:160-162 | the found enrollment is the first of the student's whose nested course id string equals the course's |
| `StudentDashboard.MarkedEnrolled` | src/pages/StudentDashboard.jsx:160-164 | a course is marked enrolled exactly when some enrollment of the student has a nested course with the same id string |
| `StudentDashboard.PostedEnrollmentIsNotAnnotated` | src/pages/StudentDashboard.jsx:160-164 | a posted body stored as sent leaves the annotation and the credit total unchanged |
| `StudentDashboard.Page.constructor` | src/pages/StudentDashboard.jsx:8-14 | the page starts with empty lists, department `'All'`, empty search and `actionLoading` null |
| `StudentDashboard.Page.LoadData` | src/pages/StudentDashboard.jsx:22-43 | a successful load replaces departments and courses and keeps the student's enrollments; a failed one changes nothing |
| `StudentDashboard.Page.StartEnroll` | src/pages/StudentDashboard.jsx:47-54 | over the cap: no request and no state change; otherwise the post is sent and the course is busy, so its button is disabled |
| `StudentDashboard.Page.StartUnenroll` | src/pages/StudentDashboard.jsx:63-68 | declining the confirmation sends nothing; otherwise a delete of `/enrollments/<id>` is sent with the course marked busy |
| `StudentDashboard.Page.FinishAction` | src/pages/StudentDashboard.jsx:55-74 | after success or failure `actionLoading` is null; data is reloaded only after success; a button is then disabled exactly when its course is enrolled (or the course has a null id) |
| `StudentDashboard.Page.SelectDepartment` | src/pages/StudentDashboard.jsx:148-150 | selecting a department changes only the selection; the catalog then shows exactly the courses in that department matching the current search |
| `StudentDashboard.Page.Search` | src/pages/StudentDashboard.jsx:113-119 | typing a term changes only the term; the catalog then shows exactly the courses in the selected department matching the new term |
| `TeacherDashboard.OwnedCourses` | src/pages/TeacherDashboard.jsx:31 | the owned courses are exactly the fetched ones whose `teacherName` strictly equals the user's name |
| `TeacherDashboard.OwnedCoursesInOrder` | src/pages/TeacherDashboard.jsx:31 | the owned courses keep the fetched order |
| `TeacherDashboard.SameNameSameCourses` | src/pages/TeacherDashboard.jsx:31 | two teachers with the same display name own the same courses |
| `TeacherDashboard.RosterIsMatchingStudents` | src/pages/TeacherDashboard.jsx:136-156 | the roster lists in order the `student` of exactly the enrollments whose `String(course?.id \|\| courseId)` equals the course id; its length counts absent students too |
| `TeacherDashboard.DanglingEnrollmentOnNoRoster` | src/pages/TeacherDashboard.jsx:136-138 | an enrollment matching no fetched course appears on no roster |
| `TeacherDashboard.NestedCourseWins` | src/pages/TeacherDashboard.jsx:137 | a truthy nested course id decides the roster, whatever `courseId` says |
| `TeacherDashboard.DepartmentRequest` | src/pages/TeacherDashboard.jsx:41-43 | a blank or whitespace-only name sends nothing; otherwise the name is posted as typed |
| `TeacherDashboard.CoursePayload` | src/pages/TeacherDashboard.jsx:52-60 | the code is upper-cased (same letters ignoring case), `teacherName` is the user's name, capacity 30, enrolled 0; credit and `department: {id}` are the form values through `Number`, NaN written as null; nothing is built when the code is not a string |
| `TeacherDashboard.EditFormRoundTrip` | src/pages/TeacherDashboard.jsx:52-60 | the payload built from the form that the edit button filled from a course, unchanged, holds its name, its numeric credit and its code upper-cased; in that payload a `null` credit becomes 0 and a missing one null, as `Number` gives, though the model's browser check (`Submittable`) refuses such a form because its credit control shows empty; a numeric department id survives, and a missing or null department becomes department 0; no payload is built for a course without a code |
| `TeacherDashboard.EmptyFormIsRefused` | src/pages/TeacherDashboard.jsx:114-120 | the browser never submits the initial or reset form (its `required` fields are empty) |
| `TeacherDashboard.EditedCourseIsSubmittable` | src/pages/TeacherDashboard.jsx:114-120 | right after the edit button, a course with a name, a code and a numeric credit passes the browser's check when some department exists |
| `TeacherDashboard.SaveRequest` | src/pages/TeacherDashboard.jsx:63-69 | edit mode sends an update of `editId`, otherwise a create, with the same payload |
| `TeacherDashboard.Page.constructor` | src/pages/TeacherDashboard.jsx:7-16 | the page starts outside edit mode with an empty form |
| `TeacherDashboard.Page.LoadData` | src/pages/TeacherDashboard.jsx:20-37 | a load keeps only owned courses and rebuilds every course's roster from the fetched enrollments; the form's department becomes the first department's id only when not editing and some department exists |
| `TeacherDashboard.Page.TypeDepartmentName` | src/pages/TeacherDashboard.jsx:106 | typing changes only the department name |
| `TeacherDashboard.Page.FillForm` | src/pages/TeacherDashboard.jsx:114-120 | typing changes only the course form |
| `TeacherDashboard.Page.SaveDepartment` | src/pages/TeacherDashboard.jsx:39-48 | a blank name or a failed post changes nothing; on success the input is cleared and the reload sets departments, enrollments, owned courses and the form's default department as `loadData` does; a failed reload keeps them |
| `TeacherDashboard.Page.ResetForm` | src/pages/TeacherDashboard.jsx:75-82 | leaves edit mode off, `editId` null, name, code and credit empty, and department the first department's id or `''` |
| `TeacherDashboard.Page.StartEdit` | src/pages/TeacherDashboard.jsx:149 | enters edit mode on the course's id and copies its name, code, stored credit and `department?.id || ''` into the form |
| `TeacherDashboard.Page.SaveCourse` | src/pages/TeacherDashboard.jsx:50-73 | a form the browser refuses, or whose code is not a string, sends nothing; otherwise update-or-create of the payload is sent; on success the form is reset, and the reload sets departments, enrollments, owned courses and the first department as the form's; a failed post changes nothing and a failed reload keeps the lists |
| `TeacherDashboard.Page.DeleteCourse` | src/pages/TeacherDashboard.jsx:150 | after confirmation the course is deleted without any ownership check; a successful delete reloads as `loadData` does (lists and form default), a failed reload keeps them; no confirmation or a failed delete changes nothing |
| `Dashboard.UnkeyedLegacyEnrollmentKey` | src/pages/Dashboard.jsx:28-29 | an enrollment with no truthy `studentId` and no `student` object has the key `"undefined"` (student missing) or `"null"` (student null), and belongs exactly to a user whose id string is that key |
| `Dashboard.MyCoursesFor` | src/pages/Dashboard.jsx:24-38 | a student gets exactly the enrollments keyed by `studentId \|\| student.id`; any other role gets exactly the courses whose `teacherName` equals the user's name |
| `Dashboard.AddCoursePayload` | src/pages/Dashboard.jsx:60-65 | a course is posted only when name, code and capacity are all answered and non-empty, with capacity `parseInt` of the answer (NaN written as null), credit 3, enrolled 0, no department and the user's name as teacher |
| `Dashboard.EditPayload` | src/pages/Dashboard.jsx:89-96 | an edit is sent only when all three answers are non-empty, sets capacity to `parseInt` of the answer (NaN written as null), and changes nothing but name, code and capacity |
| `Dashboard.LegacyBodyOwnership` | src/pages/Dashboard.jsx:104-113 | the posted `{studentId, courseId}` body is listed back for the user exactly when the id is truthy or converts to `"undefined"` |
| `Dashboard.UserIdOnlyEnrollmentIsUnseen` | src/pages/Dashboard.jsx:28-29 | an enrollment carrying only `userId` is not listed for any user whose id string is neither `"undefined"` nor `"null"` |
| `Dashboard.ItemLabelFallsBack` | src/pages/Dashboard.jsx:192-193 | the label uses `courseName`/`courseCode` when truthy, otherwise the nested course's name/code, undefined for a missing course and null for a null one |
| `Dashboard.Page.constructor` | src/pages/Dashboard.jsx:6-8 | the page starts with empty lists and not loading |
| `Dashboard.Page.LoadData` | src/pages/Dashboard.jsx:11-44 | without a user nothing happens; otherwise `loading` is false afterwards, and the lists are replaced only on success |
| `Dashboard.Page.AddCourse` | src/pages/Dashboard.jsx:55-70 | posts exactly when the payload exists; a refused or failed request changes nothing; after success `loading` is false and the reload sets `courses` and `myCourses` as `loadData` does, or keeps both when it fails |
| `Dashboard.Page.EditCourse` | src/pages/Dashboard.jsx:84-101 | puts the edited course to `/courses/<id>` exactly when the payload exists; a refused or failed request changes nothing; after success `loading` is false and the reload sets `courses` and `myCourses` as `loadData` does, or keeps both when it fails |
| `Dashboard.Page.DeleteCourse` | src/pages/Dashboard.jsx:73-81 | deletes after confirmation only; a refused or failed request changes nothing; after success `loading` is false and the reload sets `courses` and `myCourses` as `loadData` does, or keeps both when it fails |
| `Dashboard.Page.Enroll` | src/pages/Dashboard.jsx:104-119 | always posts `{studentId: user.id, courseId, enrollDate}`: no cap or duplicate check; a failed post changes nothing; after success `loading` is false and the reload sets `courses` and `myCourses` as `loadData` does, or keeps both when it fails |
| `Dashboard.Page.CancelEnroll` | src/pages/Dashboard.jsx:122-130 | deletes the enrollment after confirmation only; a refused or failed request changes nothing; after success `loading` is false and the reload sets `courses` and `myCourses` as `loadData` does, or keeps both when it fails |
| `Login.FindUser` | src/pages/Login.jsx:17-21 | the identity is the first user whose e-mail matches ignoring case, password matches as a string and role equals the tab; a user without an e-mail reached first makes the handler fail |
| `Login.EmailIgnoresCase` | src/pages/Login.jsx:18 | the e-mail typed in upper case matches the same users |
| `Login.NumericPasswordMatchesDigits` | src/pages/Login.jsx:19 | a password stored as a number matches its decimal spelling |
| `Login.TeacherRoleNeverMatches` | src/pages/Login.jsx:20 | no tab asks for role `"teacher"`, so such a user never signs in here |
| `Login.Page.constructor` | src/pages/Login.jsx:6-9 | the page starts on the student tab, not loading |
| `Login.Page.SelectTab` | src/pages/Login.jsx:65-66 | switching tabs changes only the tab |
| `Login.Page.EnterCredentials` | src/pages/Login.jsx:70-71 | typing changes only e-mail and password |
| `Login.Page.HandleLogin` | src/pages/Login.jsx:12-35 | the first match becomes the identity; with no match or a failed fetch the identity is unchanged; `loading` is false afterwards |
| `App.DashboardRoute` | src/App.jsx:24-25 | no user redirects to `/`; roles `admin` and `teacher` get the teacher page; every other role gets the student page |
| `App.SignInLandsOnTabPage` | src/App.jsx:24-25 | a user found from the admin tab lands on the teacher page, one found from the student tab on the student page |

## Left out

- HTTP through axios, `Promise.all` and `async`/`await`. Fetches are parameters and write outcomes are booleans. Overlapping handlers are not modelled: handlers run one after another.
- `window.confirm`, `prompt`, `alert`, `window.scrollTo`, `localStorage`, `navigate`, `console` and all rendering are left out. Confirmations and prompt answers are parameters.
- The clock: the `enrollDate` of the old dashboard is a parameter.
- The credit progress bar is left out because it uses floating-point division.
- `src/pages/Register.jsx` and `courseService` in `src/services/api.js` are not part of this model. No page shown here uses `courseService`, and the register page only wires a form to a single post.
- React state batching and stale closures are not modelled. The teacher page's `loadData` reads the `editMode` captured when the handler was created. The model reads the current one. So `TeacherDashboard.Page.SaveCourse` after an edit sets the form's department to the first id of the reloaded list, where the page keeps the first id of the list before the save (`departments[0]?.id || ''` from the same render).
- `Value` has no NaN (JSON stores it as null) and numbers are integers. Fractional credits and capacities, and the loss of precision above 2^53, are not modelled.
- `StudentDashboard.CreditOf`: a truthy string credit counts 0. JavaScript would turn the `reduce` into string concatenation.
- `Js.ToNumber` and `Js.StringToNumber` understand only these strings: blank, ASCII digits, a minus sign followed by ASCII digits. Other spellings that `Number` accepts (surrounding white space, `+`, decimals, exponents, hexadecimal, `Infinity`) give NaN here. This bounds `StudentDashboard.CapExceeded` for string credits and `TeacherDashboard.Submittable` for the credit field.
- `Js.ParseInt` reads integers only: the magnitude is unbounded and there is no precision limit.
- `TeacherDashboard.Submittable` approximates the browser's check. A number input holding a decimal or exponent spelling is refused here. The department select is taken to pass whenever it has an option, because a select with no placeholder always shows one. What a control shows after React is given `undefined` or `null` (a stale, uncontrolled value) is taken as empty, so a course whose credit is null or missing is refused after the edit button.
- `Js.ToStr` writes integers in plain decimal. JavaScript switches to exponent notation at 10^21.
- `Js.Lower` and `Js.Upper` map ASCII letters only. There is no Unicode case mapping.
- Course `name`, `code` and `teacherName` are strings or absent. A non-string value, which would make `toLowerCase` throw, is not modelled.
- The old dashboard's `useEffect` redirect to `/` when there is no user is left out (navigation).
