# LMS backend: a Dafny model

This project models the server of a small learning-management system (LMS) written for Express and MongoDB. It covers:

- **Course catalog.** Admins create, update and delete courses, each with a unique code and an instructor limit.
- **Teaching.** Instructors join a course up to its limit and receive a section label drawn from `v1`..`v10`, or `v<n+1>` once that pool is used up.
- **Enrollment.** Students enroll with one of the course's instructors.
- **Lessons.** Lessons are listed in sequence order. A student completes lessons, and their progress is recomputed as a percentage.
- **Assignments.** Instructors post assignments, and students hand in at most one submission each.
- **Accounts.** Users register, log in and edit their own profile.
- **Request gate.** Every route except register and login passes the `protect` middleware, which resolves the caller from the `x-user-id` header. Most routes also pass `authorize`, which checks the caller's role.

## How it is modelled

The database is an immutable `Store`:

- one table per collection;
- each table is a sequence of rows `(id, record)` in insertion order, so "find the first match" is the first match in the sequence;
- one counter hands out fresh ids.

Every handler is a pure function from the store and the request fields to a `Result`. On success the result carries the new store and the response body. On failure it carries an `Error` with its HTTP status. A failure carries no store, so a refused request changes nothing by construction.

The random section draw of `joinCourse` becomes a parameter `choice`. The drawn label is `free[choice % |free|]`, and `EveryFreeSectionDrawable` shows that every free label can come out.

The progress percentage is a real number. A course with no lessons gives `Infinite`, which is what JavaScript's division stores in that case.

As written, `createLesson` refuses every request (see Findings). The request dispatcher in `Dispatch` runs the corrected handler, which records the caller as the lesson's instructor. The code as written stays available as `Lessons.CreateLessonAsWritten`.

The modules follow the server's layout:

| module | file | models |
|---|---|---|
| `Results`, `Digits`, `Tables`, `Db` | results.dfy, digits.dfy, tables.dfy, store.dfy | the result type, id texts, tables (`findOne`, `findById`, `find`), the store |
| `Roles`, `Errors`, `Records` | roles.dfy, errors.dfy, records.dfy | the role enum, the error responses, the schema records and their required fields |
| `Middleware` | middleware.dfy | `protect` and `authorize` |
| `Routes` | routes.dfy | the six route tables and the middleware chain of a route |
| `Sections`, `Courses` | sections.dfy, courses.dfy | courseController.js |
| `Lessons` | lessons.dfy | lessonController.js |
| `Assignments` | assignments.dfy | assignmentController.js |
| `Enrollments` | enrollments.dfy | enrollmentController.js |
| `Accounts` | accounts.dfy | authController.js |
| `Invariants` | invariants.dfy | what every handler keeps true of the whole store |
| `Dispatch` | dispatch.dfy | a request: the gate, then the handler, and sequences of requests |

## Model

| member | source | states |
|---|---|---|
| Records.NewUser | backend/models/User.js:3-26 | A user record is created only when name, email and password are present and any supplied role is one of the three enum values. The role defaults to student and the picture to the empty string. Otherwise validation fails with status 500, naming the missing email when it is absent. |
| Roles.ParseRole | backend/models/User.js:17-21 | The enum check accepts exactly the spellings of the three roles. |
| Roles.ParseRoleName | backend/models/User.js:17-21 | Every role is accepted back from its own spelling. |
| Records.PasswordCheck | backend/models/User.js:29-31 | The stored password is accepted and every other candidate is refused. With no hashing, the verdict depends only on the stored text. |
| Records.NewCourse | backend/models/Course.js:3-40 | A course record is created only when title, description and code are present. It starts with empty instructor, section and student lists and keeps the given limit. |
| Records.NewLesson | backend/models/Lesson.js:3-26 | A lesson is created if and only if courseId, instructor, title, content and sequenceOrder are all supplied. A missing instructor is always named in the validation error. |
| Records.NewEnrollment | backend/models/Enrollment.js:3-27 | A new enrollment holds the three ids as given, no completed lessons and progress 0. |
| Digits.ParseNat | backend/middleware/auth.js:6-12 | The header text is read as an id exactly when it is a non-empty string of decimal digits. |
| Digits.ParseNatRoundTrip | backend/middleware/auth.js:12 | The decimal text of an id reads back as that id. |
| Middleware.Protect | backend/middleware/auth.js:4-22 | A missing or empty header gives "no user ID". Text that is not an id gives "Not authorized". An id with no user gives "User not found". Every failure is 401, and success binds the stored user with that id, password removed. |
| Middleware.ProfileDropsOnlyPassword | backend/middleware/auth.js:12 | The profile `protect` binds does not depend on the stored password, and together with the password it gives back the stored user row. |
| Middleware.ProtectResolves | backend/middleware/auth.js:12-17 | A header carrying a stored user's id binds exactly that user's profile. |
| Middleware.Authorize | backend/middleware/auth.js:24-31 | Passes if and only if the caller's role is in the route's list; otherwise answers 403 naming the role. |
| Routes.AccessOf | backend/routes/authRoutes.js:8-11 | In the route tables, only register and login are open, and every restricted route lists at least one role. |
| Routes.Gate | backend/routes/courseRoutes.js:15-21 | Open routes bind nobody. On every other route, `protect`'s failure is the answer. Otherwise the request passes if and only if the route is unrestricted or lists the caller's role, and a refusal is 403 for that role. |
| Routes.GateStatus | backend/middleware/auth.js:4-31 | A refused request gets 401 when no caller was identified and 403 when only the role was wrong. |
| Routes.GateAdmits | backend/middleware/auth.js:24-31 | The gate passes a request exactly when the route's rule admits the identified caller's role. |
| Routes.CourseRouteRoles | backend/routes/courseRoutes.js:15-21 | Listing and fetching courses need any identity. Create, update and delete need an admin. Join needs an instructor and enroll needs a student. |
| Routes.LessonRouteRoles | backend/routes/lessonRoutes.js:13-17 | Listing lessons needs any identity. Create, update and delete need an instructor or an admin. Completing needs a student. |
| Routes.AssignmentRouteRoles | backend/routes/assignmentRoutes.js:14-19 | Listing assignments needs any identity. Create, update, delete and listing submissions need an instructor; an admin is refused. Submitting needs a student. |
| Routes.EnrollmentRouteRoles | backend/routes/enrollmentRoutes.js:11-13 | Both enrollment reads need a student. Students-by-instructor needs an instructor or an admin. |
| Routes.AuthRouteRoles | backend/routes/authRoutes.js:8-11 | Register and login admit even an unidentified caller. Both profile routes need an identity of any role. |
| Routes.UserRouteRoles | backend/routes/userRoutes.js:8-10 | All three user-management routes need an admin. |
| Courses.GetCourse | backend/controllers/courseController.js:19-33 | Answers 404 if and only if no course has the id; otherwise the stored row with that id. |
| Courses.LimitOrOne | backend/controllers/courseController.js:51 | An absent limit or a limit of 0 becomes 1, and any other integer limit is kept. So an integer limit is never stored as 0. |
| Courses.CreateCourse | backend/controllers/courseController.js:38-58 | A code already in use gives "Course code already exists" before anything else. Otherwise the course is created if and only if title, description and code are present. It is appended under the next id with empty rosters and the limit as supplied or 1. |
| Courses.UpdateCourse | backend/controllers/courseController.js:63-81 | A missing course gives 404. Otherwise the merged record replaces the row under the same id. The exception is a code another course holds, which the unique index refuses. |
| Courses.DeleteCourse | backend/controllers/courseController.js:86-99 | A missing course gives 404. Otherwise the first row with that id is removed, the other rows keep their order, and no other table changes. |
| Courses.DeleteCourseRemovesIt | backend/controllers/courseController.js:94 | With unique ids, the courses left after a delete are exactly the stored courses with a different id. |
| Sections.LabelsFrom | backend/controllers/courseController.js:122 | The pool is the labels `v<k>` to `v<k+n-1>`, in order. |
| Sections.LabelRoundTrip | backend/controllers/courseController.js:124 | The number of the label `v<k>` is k, so different numbers give different labels. |
| Sections.Used | backend/controllers/courseController.js:121 | The labels in use are the sections' labels, one per entry, in order. |
| Sections.Unused | backend/controllers/courseController.js:123 | A label is available if and only if it is in the pool and not in use. |
| Sections.PickSection | backend/controllers/courseController.js:121-124 | While any pool label is free, the pick is a free pool label. When none is free, it is `v<n+1>` for n instructors. |
| Sections.EveryFreeLabelCanBePicked | backend/controllers/courseController.js:124 | Every free label is the outcome of some draw. |
| Sections.ExhaustedPoolMeansTen | backend/controllers/courseController.js:122-124 | The pool can only be used up once ten labels are in use. |
| Sections.FallbackIsNew | backend/controllers/courseController.js:124 | With ten or more sections, the fallback `v<n+1>` is outside the pool and unused. |
| Sections.PickKeepsLabels | backend/controllers/courseController.js:120-128 | Adding the picked label keeps a course's labels distinct. |
| Courses.DrawSection | backend/controllers/courseController.js:120-124 | While a pool label is free, the join's label is an unused pool label. Once all ten are used, it is `v<n+1>`. |
| Courses.EveryFreeSectionDrawable | backend/controllers/courseController.js:123-124 | Every unused pool label can be assigned by a join. |
| Courses.JoinRoster | backend/controllers/courseController.js:112-128 | "Already teaching" is checked before "Capacity Reached". A join succeeds if and only if the caller is new and the roster is below the limit. It then appends the caller once to the instructors and once to the sections. |
| Courses.JoinCourse | backend/controllers/courseController.js:104-135 | A missing course gives 404 before the roster guards. On success only that course row changes, and the answer carries the assigned section. |
| Courses.JoinKeepsCourseInv | backend/controllers/courseController.js:116-128 | A join keeps the course within its limit, keeps one section per instructor and keeps labels distinct. |
| Courses.JoinKeepsRoster | backend/controllers/courseController.js:116-128 | Whatever label a join assigns, the roster stays within capacity, duplicate-free and aligned with the sections. |
| Courses.JoinKeepsLabels | backend/controllers/courseController.js:120-128 | A join keeps the section labels pairwise distinct. |
| Courses.EmptyCourseInv | backend/models/Course.js:21-35 | A course nobody teaches satisfies the course invariant. |
| Courses.JoinsKeepLabelsDistinct | backend/controllers/courseController.js:120-128 | Over any sequence of joins, labels stay distinct and the roster never exceeds the limit. |
| Courses.JoinDrawsFromPool | backend/controllers/courseController.js:121-124 | With fewer than ten sections, the drawn label is an unused pool label. |
| Courses.JoinWithRoom | backend/controllers/courseController.js:116-128 | A new instructor joining a course with room succeeds and is appended. The course gains exactly the drawn label. |
| Courses.TwoJoins | backend/controllers/courseController.js:120-128 | Two instructors joining an empty course both succeed, with two different pool labels. |
| Courses.TwoSeatCourse | backend/controllers/courseController.js:116-118 | In a course with limit 2, a third instructor is refused with "Capacity Reached". |
| Courses.EnrollCourse | backend/controllers/courseController.js:140-181 | Guards run in order: 404, no instructor chosen, instructor not teaching the course, already enrolled with that instructor. A success appends the caller to the students and appends one new enrollment. |
| Courses.EnrollCreatesExactlyOne | backend/controllers/courseController.js:158-175 | After an enroll, exactly one enrollment links that student, course and instructor. |
| Lessons.Insert | backend/controllers/lessonController.js:9 | Inserting into an ordered list keeps it ordered and adds exactly that lesson. |
| Lessons.SortByOrder | backend/controllers/lessonController.js:9 | The sort gives the same lessons, as a multiset, in ascending sequence order. |
| Lessons.LessonCountBounds | backend/controllers/lessonController.js:97 | The count of a course's lessons is at most the number of stored lessons, and it is 0 exactly when no stored lesson belongs to the course. |
| Lessons.GetLessons | backend/controllers/lessonController.js:7-14 | The answer is the course's lessons as a multiset, each as often as it is stored, in ascending sequence order. |
| Lessons.InsertLesson | backend/controllers/lessonController.js:23-28 | A lesson is stored under the next id if and only if the schema accepts it. |
| Lessons.CreateLessonAsWritten | backend/controllers/lessonController.js:19-34 | As written, every create request fails validation with status 500, because `instructor` is never supplied. |
| Lessons.CompleteRequestRefused | backend/controllers/lessonController.js:23-28 | Even a request with every field filled gets exactly a validation failure on `instructor`. |
| Lessons.CreateLesson | backend/controllers/lessonController.js:19-34 | Corrected: the lesson is created if and only if courseId, title, content and order are supplied. The caller becomes its instructor and the row is appended. |
| Lessons.UpdateLesson | backend/controllers/lessonController.js:39-57 | A missing lesson gives 404. Otherwise only that row changes and the other tables stay as they were; who asks plays no part. |
| Lessons.DeleteLesson | backend/controllers/lessonController.js:62-75 | A missing lesson gives 404. Otherwise the first row with that id is removed, the other rows keep their order, and no other table changes; enrollments keep its id. |
| Lessons.DeleteLessonRemovesIt | backend/controllers/lessonController.js:70 | With unique ids, the lessons left after a delete are exactly the stored lessons with a different id. |
| Lessons.DeleteLowersCount | backend/controllers/lessonController.js:62-75 | Deleting a lesson of a course lowers that course's lesson count by one and leaves every enrollment as it was. |
| Lessons.ProgressOf | backend/controllers/lessonController.js:97-98 | Progress is infinite if and only if the course has no lessons. Otherwise progress × lessons = 100 × completed. |
| Lessons.CompleteLesson | backend/controllers/lessonController.js:80-107 | No enrollment gives 404. A lesson already completed leaves the store and the answer unchanged. Otherwise exactly that id is appended and progress is recomputed over the course's lesson count. |
| Lessons.CompleteTwice | backend/controllers/lessonController.js:93-103 | Completing the same lesson again changes nothing. |
| Lessons.CompleteKeepsNoRepeats | backend/controllers/lessonController.js:93-94 | No enrollment ever lists a lesson twice. |
| Lessons.StaleProgress | backend/controllers/lessonController.js:62-101 | After a completion, deleting one of the course's lessons lowers its lesson count but leaves the stored progress as it was. |
| Lessons.ProgressCanExceedHundred | backend/controllers/lessonController.js:93-98 | Lesson ids are not checked against the course, so progress reaches 200. |
| Assignments.GetAssignments | backend/controllers/assignmentController.js:7-16 | The answer is exactly the course's assignments. |
| Assignments.Reverse | backend/controllers/assignmentController.js:11 | Newest first is the table order reversed, element for element. |
| Assignments.CreateAssignment | backend/controllers/assignmentController.js:21-37 | The assignment is appended under the next id with the caller as `createdBy`. |
| Assignments.NewestFirst | backend/controllers/assignmentController.js:9-11 | A newly created assignment heads its course's list. |
| Assignments.UpdateAssignment | backend/controllers/assignmentController.js:42-60 | A missing assignment gives 404. Otherwise only that row changes; who asks plays no part. |
| Assignments.DeleteAssignment | backend/controllers/assignmentController.js:65-78 | A missing assignment gives 404. Otherwise the first row with that id is removed, the other rows keep their order, and no other table changes. |
| Assignments.DeleteAssignmentRemovesIt | backend/controllers/assignmentController.js:73 | With unique ids, the assignments left after a delete are exactly the stored assignments with a different id. |
| Assignments.SubmitAssignment | backend/controllers/assignmentController.js:83-106 | Refused with "Assignment already submitted" if and only if the caller already submitted to it. Otherwise exactly one submission by the caller is appended. |
| Assignments.SubmitOnce | backend/controllers/assignmentController.js:87-100 | After a first submission, exactly one submission links that student and assignment, and any second attempt is refused. |
| Assignments.SubmitIgnoresAssignments | backend/controllers/assignmentController.js:83-106 | The outcome does not depend on whether the assignment exists. |
| Assignments.SubmitKeepsUnique | backend/controllers/assignmentController.js:87-100 | No student ever holds two submissions for one assignment. |
| Assignments.GetSubmissions | backend/controllers/assignmentController.js:111-119 | The answer is exactly the submissions for that assignment. |
| Assignments.SubmissionListed | backend/controllers/assignmentController.js:113 | A submission just made is listed for its assignment. |
| Enrollments.FindEnrollment | backend/controllers/enrollmentController.js:23-26 | Finds the first enrollment of the student in the course, or reports that none exists. |
| Enrollments.GetEnrollments | backend/controllers/enrollmentController.js:7-16 | The answer is exactly the caller's enrollments. |
| Enrollments.GetEnrollment | backend/controllers/enrollmentController.js:21-39 | Answers 404 if and only if the caller has no enrollment in the course; otherwise one of the caller's enrollments in it. |
| Enrollments.StudentsByInstructor | backend/controllers/enrollmentController.js:44-58 | One student per enrollment of the course with that instructor, and every such student is listed. |
| Enrollments.EnrolledStudentListed | backend/controllers/enrollmentController.js:48-53 | Right after an enroll, the student is listed for that course and instructor. |
| Accounts.Register | backend/controllers/authController.js:5-25 | An email in use gives "User already exists" before anything else. Otherwise the user is created if and only if the schema accepts it, and the answer carries no password. |
| Accounts.Login | backend/controllers/authController.js:29-53 | An unknown email gives 401 "User not found". For a known email, the first user with it decides: login succeeds exactly when the password matches theirs, answering with their profile, which carries no password; otherwise the answer is 401 "Invalid password". |
| Accounts.FindByEmail | backend/controllers/authController.js:33 | The lookup finds the first user with the email, and finds none exactly when no user has it. |
| Accounts.RegisterThenLogin | backend/controllers/authController.js:5-53 | A user who just registered logs in with the same email and password and is answered with the new record. |
| Accounts.WrongPasswordRefused | backend/controllers/authController.js:38-41 | A known email with a different password gives "Invalid password". |
| Accounts.GetProfile | backend/controllers/authController.js:57-64 | The caller's record without its password, or nothing when the record is gone. |
| Accounts.UpdateProfile | backend/controllers/authController.js:68-97 | A missing caller gives 404. The name changes only to a non-empty name and the picture only when a file was uploaded. Email, role and password never change. |
| Invariants.CreateCourseKeepsInv | backend/controllers/courseController.js:38-58 | Creating a course keeps codes and ids unique and every course within its limit. |
| Invariants.UpdateCourseKeepsInv | backend/controllers/courseController.js:63-81 | An update to a record that itself satisfies the course invariant keeps the store invariant. |
| Invariants.DeleteCourseKeepsInv | backend/controllers/courseController.js:86-99 | A delete keeps the store invariant. |
| Invariants.JoinCourseKeepsInv | backend/controllers/courseController.js:104-135 | A join keeps the store invariant. |
| Invariants.EnrollCourseKeepsInv | backend/controllers/courseController.js:140-181 | An enroll keeps enrollments unique per (student, course, instructor). |
| Invariants.CompleteLessonKeepsInv | backend/controllers/lessonController.js:80-107 | A completion keeps the store invariant. |
| Invariants.SubmitKeepsInv | backend/controllers/assignmentController.js:83-106 | A submission keeps the store invariant. |
| Invariants.RegisterKeepsInv | backend/controllers/authController.js:5-25 | A registration keeps emails unique. |
| Invariants.UpdateProfileKeepsInv | backend/controllers/authController.js:68-97 | A profile update keeps emails unique. |
| Dispatch.OnlyAccountRoutesOpen | backend/routes/authRoutes.js:8-11 | Register and login are the only routes without `protect`. |
| Dispatch.Handle | backend/routes/courseRoutes.js:15-21 | The middleware's refusal is the answer and no handler runs. Read-only handlers leave the store as it was. |
| Dispatch.IdentityFirst | backend/routes/lessonRoutes.js:13-17 | On every route but register and login, an unidentified caller gets `protect`'s 401 whatever the handler would do. |
| Dispatch.RoleSecond | backend/routes/enrollmentRoutes.js:11-13 | An identified caller whose role the route does not list gets 403 and no handler runs. |
| Dispatch.SuccessMeansAdmitted | backend/routes/assignmentRoutes.js:14-19 | A request that succeeds on a restricted route came from a caller of a listed role. |
| Dispatch.EditsIgnoreOwner | backend/controllers/lessonController.js:39-75 | Any two admitted callers get the same outcome from a lesson or assignment update or delete. |
| Dispatch.StepKeepsInv | backend/routes/courseRoutes.js:15-21 | Any one admitted request keeps the store invariant, except a course update whose new record breaks the course invariant. |
| Dispatch.RunKeepsInv | backend/controllers/courseController.js:112-128 | Any sequence of requests with no course update to a record that breaks the course invariant keeps the store invariant: limits, distinct labels, and unique codes, enrollments, submissions and emails. |
| Dispatch.CoursesStayWithinLimits | backend/controllers/courseController.js:116-128 | From an empty store, every course stays within its limit with distinct labels, under any requests except course updates to a record that breaks the course invariant. |

## Left out

- The frontend is presentation and client state. Its client-side filters and due-date checks are not enforced by the server.
- Population of referenced documents is not modelled, because it only shapes responses. Answers carry ids where the server would populate documents.
- Timestamps are not stored. "Newest first" is modelled as reverse insertion order.
- Schema validation is modelled only as required-field checks, with the empty string counting as missing.
- The generic 500 answers of the catch blocks are left out: the model has no database or network faults. The 500s of schema validation and of the unique `code` index are kept.
- `Math.random` is a parameter `choice`. Every free label is reachable (`Courses.EveryFreeSectionDrawable`).
- Concurrency is not modelled. Requests run one after another, so the check-then-create guards of enroll, submit, join and register are only shown sequentially.
- The file upload and the picture host are left out because they are foreign calls. An upload arrives as the stored path `file`.
- Server bootstrap is left out.
- The user-management handlers (`userController`) are not part of this model. Only their route table is modelled, in `Routes.UserRouteRoles`.
- Ids are natural numbers written in decimal, not ObjectIds. Text that is not a valid id takes the "Not authorized" path, as a failed cast does.
- Courses.UpdateCourse, Lessons.UpdateLesson and Assignments.UpdateAssignment take the record after the merge as `patch`. The merge of an untyped request body is not modelled.
- Dispatch.RunKeepsInv excludes course updates whose new record breaks the course invariant (`PatchKeepsCourseInv`). A merged body can raise a roster past its limit or repeat a label.
- Dispatch.StepKeepsInv has the same exclusion: it covers one request only when that request is not a course update to a record that breaks the course invariant.
- Dispatch.CoursesStayWithinLimits has the same exclusion: `updateCourse` stores whatever merged body arrives, so an admin can set a roster past its limit.
- Dispatch.Handle runs the corrected `createLesson` (see Findings), so a lesson create that the server as written answers with 500 succeeds in the model and stores a lesson. The code as written is `Lessons.CreateLessonAsWritten`.
- Courses.LimitOrOne types the limit as an integer. The request body is untyped JSON. `instructorLimit || 1` keeps a string such as "0" because it is truthy, and the schema then casts it to 0. A fractional limit such as 1.5 is also kept and admits two instructors. The model does not promise a non-zero limit for such bodies.
- Lessons.GetLessons does not fix the order of lessons with equal sequence order, because the database sort does not promise one.
- Assignments.GetAssignments states membership in its own contract. The order is stated through `Assignments.Reverse` and `Assignments.NewestFirst`.
- Lessons.ProgressOf uses exact reals, not floating point. A course with no lessons gives `Infinite`, as JavaScript's division does. NaN cannot arise, because a completion always leaves at least one completed lesson.
- Accounts.GetProfile answers `None` where the server answers `null` for a caller whose record has gone.
- The assignment and submission schema files are not part of this model. No field checks are applied to those records.
- A progress range of 0 to 100 is described for the design but is not enforced by the code. The model follows the code: `Lessons.ProgressCanExceedHundred`.

## Findings

| source | as written | input that shows it | evidently intended | confidence | as-written member | corrected member |
|---|---|---|---|---|---|---|
| backend/controllers/lessonController.js:23-28 | `createLesson` passes `courseId`, `title`, `content` and `sequenceOrder` to `Lesson.create`. The Lesson schema also requires `instructor` (backend/models/Lesson.js:9-13). | Any request, e.g. courseId 1, title "Intro", content "Welcome", sequenceOrder 1, from an instructor. Validation fails on `instructor` and the answer is 500. | The calling instructor is recorded as the lesson's instructor and the lesson is created. | not executed | Lessons.CreateLessonAsWritten, Lessons.CompleteRequestRefused | Lessons.CreateLesson |
