/** The route tables (the files under backend/routes): which middleware runs in front of
    each handler. Every route except register and login runs `protect`
    first; a route restricted to some roles then runs `authorize`. */
module Routes {
  import opened Results
  import opened Roles
  import opened Errors
  import opened Db
  import opened Middleware

  datatype Endpoint =
    // courseRoutes.js
    | CourseList | CourseGet | CourseCreate | CourseUpdate | CourseDelete | CourseJoin | CourseEnroll
    // lessonRoutes.js
    | LessonList | LessonCreate | LessonUpdate | LessonDelete | LessonComplete
    // assignmentRoutes.js
    | AssignmentList | AssignmentCreate | AssignmentUpdate | AssignmentDelete | AssignmentSubmit | SubmissionList
    // enrollmentRoutes.js
    | EnrollmentList | EnrollmentGet | StudentsByInstructor
    // authRoutes.js
    | AccountRegister | AccountLogin | ProfileGet | ProfileUpdate
    // userRoutes.js
    | UserList | UserListByRole | UserDelete

  /** What a route demands of its caller: nothing, an identity, or an
      identity with one of the listed roles. */
  datatype Access = Open | Identified | Restricted(roles: set<Role>)

  /** The route tables: only register and login are open, and a restricted
      route names at least one role. */
  function AccessOf(e: Endpoint): (a: Access)
    ensures a.Open? <==> e == AccountRegister || e == AccountLogin
    ensures a.Restricted? ==> a.roles != {}
  {
    match e
    case CourseList => Identified
    case CourseGet => Identified
    case CourseCreate => Restricted({Admin})
    case CourseUpdate => Restricted({Admin})
    case CourseDelete => Restricted({Admin})
    case CourseJoin => Restricted({Instructor})
    case CourseEnroll => Restricted({Student})
    case LessonList => Identified
    case LessonCreate => Restricted({Instructor, Admin})
    case LessonUpdate => Restricted({Instructor, Admin})
    case LessonDelete => Restricted({Instructor, Admin})
    case LessonComplete => Restricted({Student})
    case AssignmentList => Identified
    case AssignmentCreate => Restricted({Instructor})
    case AssignmentUpdate => Restricted({Instructor})
    case AssignmentDelete => Restricted({Instructor})
    case AssignmentSubmit => Restricted({Student})
    case SubmissionList => Restricted({Instructor})
    case EnrollmentList => Restricted({Student})
    case EnrollmentGet => Restricted({Student})
    case StudentsByInstructor => Restricted({Instructor, Admin})
    case AccountRegister => Open
    case AccountLogin => Open
    case ProfileGet => Identified
    case ProfileUpdate => Identified
    case UserList => Restricted({Admin})
    case UserListByRole => Restricted({Admin})
    case UserDelete => Restricted({Admin})
  }

  /** The middleware chain of a route: `protect`, then `authorize` when the
      route is restricted. The caller is bound for every route but the open
      ones. */
  function Gate(s: Store, header: Option<string>, e: Endpoint): (r: Result<Option<Profile>, Error>)
    ensures AccessOf(e).Open? ==> r == Success(None)
    ensures !AccessOf(e).Open? && Protect(s, header).Failure? ==> r == Failure(Protect(s, header).error)
    ensures !AccessOf(e).Open? && Protect(s, header).Success? ==>
      var p := Protect(s, header).value;
      && (r.Success? <==> !AccessOf(e).Restricted? || p.role in AccessOf(e).roles)
      && (r.Success? ==> r.value == Some(p))
      && (r.Failure? ==> r.error == Forbidden(p.role))
  {
    match AccessOf(e)
    case Open => Success(None)
    case Identified =>
      var p :- Protect(s, header);
      Success(Some(p))
    case Restricted(roles) =>
      var p :- Protect(s, header);
      var q :- Authorize(roles, p);
      Success(Some(q))
  }

  /** The role of the caller the header identifies, if it identifies one. */
  function CallerRole(s: Store, header: Option<string>): Option<Role> {
    if Protect(s, header).Success? then Some(Protect(s, header).value.role) else None
  }

  /** A failed gate answers 401 when the identity check failed and 403 when
      only the role did; no other status comes out of it. */
  lemma GateStatus(s: Store, header: Option<string>, e: Endpoint)
    requires Gate(s, header, e).Failure?
    ensures CallerRole(s, header).None? ==> Status(Gate(s, header, e).error) == 401
    ensures CallerRole(s, header).Some? ==> Status(Gate(s, header, e).error) == 403
  {
  }

  /** Whether an access rule lets a caller of role `who` through (`None`:
      no identified caller). */
  predicate Admits(a: Access, who: Option<Role>) {
    match a
    case Open => true
    case Identified => who.Some?
    case Restricted(roles) => who.Some? && who.value in roles
  }

  /** The gate lets a request through exactly when its route's rule admits
      the caller the header identifies. */
  lemma GateAdmits(s: Store, h: Option<string>, e: Endpoint)
    ensures Gate(s, h, e).Success? <==> Admits(AccessOf(e), CallerRole(s, h))
  {
  }

  /** courseRoutes.js: listing and fetching need an identity only; creating,
      updating and deleting need an admin; joining an instructor; enrolling a
      student. */
  lemma CourseRouteRoles(who: Option<Role>)
    ensures Admits(AccessOf(CourseList), who) <==> who.Some?
    ensures Admits(AccessOf(CourseGet), who) <==> who.Some?
    ensures Admits(AccessOf(CourseCreate), who) <==> who == Some(Admin)
    ensures Admits(AccessOf(CourseUpdate), who) <==> who == Some(Admin)
    ensures Admits(AccessOf(CourseDelete), who) <==> who == Some(Admin)
    ensures Admits(AccessOf(CourseJoin), who) <==> who == Some(Instructor)
    ensures Admits(AccessOf(CourseEnroll), who) <==> who == Some(Student)
  {
  }

  /** lessonRoutes.js: listing needs an identity; creating, updating and
      deleting an instructor or an admin; completing a student. */
  lemma LessonRouteRoles(who: Option<Role>)
    ensures Admits(AccessOf(LessonList), who) <==> who.Some?
    ensures Admits(AccessOf(LessonCreate), who) <==> who in {Some(Instructor), Some(Admin)}
    ensures Admits(AccessOf(LessonUpdate), who) <==> who in {Some(Instructor), Some(Admin)}
    ensures Admits(AccessOf(LessonDelete), who) <==> who in {Some(Instructor), Some(Admin)}
    ensures Admits(AccessOf(LessonComplete), who) <==> who == Some(Student)
  {
  }

  /** assignmentRoutes.js: listing needs an identity; creating, updating,
      deleting and listing submissions an instructor (an admin is refused);
      submitting a student. */
  lemma AssignmentRouteRoles(who: Option<Role>)
    ensures Admits(AccessOf(AssignmentList), who) <==> who.Some?
    ensures Admits(AccessOf(AssignmentCreate), who) <==> who == Some(Instructor)
    ensures Admits(AccessOf(AssignmentUpdate), who) <==> who == Some(Instructor)
    ensures Admits(AccessOf(AssignmentDelete), who) <==> who == Some(Instructor)
    ensures Admits(AccessOf(AssignmentSubmit), who) <==> who == Some(Student)
    ensures Admits(AccessOf(SubmissionList), who) <==> who == Some(Instructor)
  {
  }

  /** enrollmentRoutes.js: a student's own enrollments need a student; the
      students of an instructor need an instructor or an admin. */
  lemma EnrollmentRouteRoles(who: Option<Role>)
    ensures Admits(AccessOf(EnrollmentList), who) <==> who == Some(Student)
    ensures Admits(AccessOf(EnrollmentGet), who) <==> who == Some(Student)
    ensures Admits(AccessOf(StudentsByInstructor), who) <==> who in {Some(Instructor), Some(Admin)}
  {
  }

  /** authRoutes.js: register and login are open to anyone, even without an
      identified caller; the profile routes need an identity of any role. */
  lemma AuthRouteRoles(who: Option<Role>)
    ensures Admits(AccessOf(AccountRegister), who)
    ensures Admits(AccessOf(AccountLogin), who)
    ensures Admits(AccessOf(ProfileGet), who) <==> who.Some?
    ensures Admits(AccessOf(ProfileUpdate), who) <==> who.Some?
  {
  }

  /** userRoutes.js: every user-management route needs an admin. */
  lemma UserRouteRoles(who: Option<Role>)
    ensures Admits(AccessOf(UserList), who) <==> who == Some(Admin)
    ensures Admits(AccessOf(UserListByRole), who) <==> who == Some(Admin)
    ensures Admits(AccessOf(UserDelete), who) <==> who == Some(Admin)
  {
  }
}
