/** The server as a whole: a request names a route and carries the
    `x-user-id` header; the route's middleware runs first, then the handler.
    Read-only handlers leave the store as it was. The user-management
    routes are absent here: their controller is not part of this model. */
module Dispatch {
  import opened Results
  import opened Tables
  import opened Roles
  import opened Errors
  import opened Records
  import opened Db
  import opened Middleware
  import opened Routes
  import opened Invariants
  import Courses
  import Lessons
  import Assignments
  import Enrollments
  import Accounts
  import Sections

  /** A handler call with the parameters it reads from the path and body.
      `choice` stands for the random draw of `joinCourse`; `file` is the path
      of an uploaded picture. */
  datatype Call =
    | GetCourses
    | GetCourse(id: Id)
    | CreateCourse(title: string, description: string, code: string, limit: Option<int>)
    | UpdateCourse(id: Id, course: Course)
    | DeleteCourse(id: Id)
    | JoinCourse(id: Id, choice: nat)
    | EnrollCourse(id: Id, instructorId: Option<Id>)
    | GetLessons(courseId: Id)
    | CreateLesson(lessonCourse: Option<Id>, title: string, content: string, sequenceOrder: Option<int>)
    | UpdateLesson(id: Id, lesson: Lesson)
    | DeleteLesson(id: Id)
    | CompleteLesson(id: Id, courseId: Id)
    | GetAssignments(courseId: Id)
    | CreateAssignment(courseId: Id, title: string, description: string, dueDate: string)
    | UpdateAssignment(id: Id, assignment: Assignment)
    | DeleteAssignment(id: Id)
    | SubmitAssignment(id: Id, content: string)
    | GetSubmissions(id: Id)
    | GetEnrollments
    | GetEnrollment(courseId: Id)
    | GetStudentsByInstructor(courseId: Id, instructor: Id)
    | Register(name: string, email: string, password: string, role: Option<string>)
    | Login(email: string, password: string)
    | GetProfile
    | UpdateProfile(name: string, file: Option<string>)

  function EndpointOf(c: Call): Endpoint {
    match c
    case GetCourses => CourseList
    case GetCourse(_) => CourseGet
    case CreateCourse(_, _, _, _) => CourseCreate
    case UpdateCourse(_, _) => CourseUpdate
    case DeleteCourse(_) => Routes.CourseDelete
    case JoinCourse(_, _) => CourseJoin
    case EnrollCourse(_, _) => Routes.CourseEnroll
    case GetLessons(_) => LessonList
    case CreateLesson(_, _, _, _) => LessonCreate
    case UpdateLesson(_, _) => LessonUpdate
    case DeleteLesson(_) => LessonDelete
    case CompleteLesson(_, _) => LessonComplete
    case GetAssignments(_) => AssignmentList
    case CreateAssignment(_, _, _, _) => AssignmentCreate
    case UpdateAssignment(_, _) => AssignmentUpdate
    case DeleteAssignment(_) => AssignmentDelete
    case SubmitAssignment(_, _) => AssignmentSubmit
    case GetSubmissions(_) => SubmissionList
    case GetEnrollments => EnrollmentList
    case GetEnrollment(_) => EnrollmentGet
    case GetStudentsByInstructor(_, _) => Routes.StudentsByInstructor
    case Register(_, _, _, _) => AccountRegister
    case Login(_, _) => AccountLogin
    case GetProfile => ProfileGet
    case UpdateProfile(_, _) => ProfileUpdate
  }

  /** Register and login are the only routes without middleware. */
  lemma OnlyAccountRoutesOpen(c: Call)
    ensures AccessOf(EndpointOf(c)).Open? <==> c.Register? || c.Login?
  {
  }

  /** The handlers that only read. */
  predicate ReadOnly(c: Call) {
    || c.GetCourses? || c.GetCourse? || c.GetLessons? || c.GetAssignments? || c.GetSubmissions?
    || c.GetEnrollments? || c.GetEnrollment? || c.GetStudentsByInstructor? || c.Login? || c.GetProfile?
  }

  function StoreOf<T>(r: Result<Reply<T>, Error>): (t: Result<Store, Error>)
    ensures t.Success? <==> r.Success?
    ensures t.Failure? ==> t.error == r.error
    ensures t.Success? ==> t.value == r.value.store
  {
    match r
    case Success(reply) => Success(reply.store)
    case Failure(e) => Failure(e)
  }

  predicate CourseCall(c: Call) {
    c.GetCourses? || c.GetCourse? || c.CreateCourse? || c.UpdateCourse? || c.DeleteCourse? || c.JoinCourse? || c.EnrollCourse?
  }

  predicate LessonCall(c: Call) {
    c.GetLessons? || c.CreateLesson? || c.UpdateLesson? || c.DeleteLesson? || c.CompleteLesson?
  }

  predicate AssignmentCall(c: Call) {
    c.GetAssignments? || c.CreateAssignment? || c.UpdateAssignment? || c.DeleteAssignment? || c.SubmitAssignment? || c.GetSubmissions?
  }

  /** Calls about the caller's own enrollments and profile. */
  predicate OwnCall(c: Call) {
    c.GetEnrollments? || c.GetEnrollment? || c.GetStudentsByInstructor? || c.GetProfile? || c.UpdateProfile?
  }

  /** courseController.js */
  function ApplyCourse(s: Store, me: Id, c: Call): (r: Result<Store, Error>)
    requires CourseCall(c)
    ensures ReadOnly(c) && r.Success? ==> r.value == s
  {
    match c
    case GetCourse(id) =>
      var _ :- Courses.GetCourse(s, id);
      Success(s)
    case CreateCourse(title, description, code, limit) => StoreOf(Courses.CreateCourse(s, title, description, code, limit))
    case UpdateCourse(id, course) => StoreOf(Courses.UpdateCourse(s, id, course))
    case DeleteCourse(id) => Courses.DeleteCourse(s, id)
    case JoinCourse(id, choice) => StoreOf(Courses.JoinCourse(s, me, id, choice))
    case EnrollCourse(id, instructorId) => StoreOf(Courses.EnrollCourse(s, me, id, instructorId))
    case _ => Success(s)
  }

  /** lessonController.js, with lesson creation as corrected (the caller
      becomes the lesson's instructor). */
  function ApplyLesson(s: Store, me: Id, c: Call): (r: Result<Store, Error>)
    requires LessonCall(c)
    ensures ReadOnly(c) && r.Success? ==> r.value == s
  {
    match c
    case CreateLesson(courseId, title, content, order) => StoreOf(Lessons.CreateLesson(s, me, courseId, title, content, order))
    case UpdateLesson(id, lesson) => StoreOf(Lessons.UpdateLesson(s, id, lesson))
    case DeleteLesson(id) => Lessons.DeleteLesson(s, id)
    case CompleteLesson(id, courseId) => StoreOf(Lessons.CompleteLesson(s, me, id, courseId))
    case _ => Success(s)
  }

  /** assignmentController.js */
  function ApplyAssignment(s: Store, me: Id, c: Call): (r: Result<Store, Error>)
    requires AssignmentCall(c)
    ensures ReadOnly(c) && r.Success? ==> r.value == s
  {
    match c
    case CreateAssignment(courseId, title, description, dueDate) =>
      Success(Assignments.CreateAssignment(s, me, courseId, title, description, dueDate).store)
    case UpdateAssignment(id, assignment) => StoreOf(Assignments.UpdateAssignment(s, id, assignment))
    case DeleteAssignment(id) => Assignments.DeleteAssignment(s, id)
    case SubmitAssignment(id, content) => StoreOf(Assignments.SubmitAssignment(s, me, id, content))
    case _ => Success(s)
  }

  /** enrollmentController.js and the caller's own profile in
      authController.js. */
  function ApplyOwn(s: Store, me: Id, c: Call): (r: Result<Store, Error>)
    requires OwnCall(c)
    ensures ReadOnly(c) && r.Success? ==> r.value == s
  {
    match c
    case GetEnrollment(courseId) =>
      var _ :- Enrollments.GetEnrollment(s, me, courseId);
      Success(s)
    case UpdateProfile(name, file) => StoreOf(Accounts.UpdateProfile(s, me, name, file))
    case _ => Success(s)
  }

  /** The handler of a call, run by the caller the middleware bound (none on
      the open routes). Answers with the store the handler leaves. */
  function Apply(s: Store, caller: Option<Profile>, c: Call): (r: Result<Store, Error>)
    requires caller.Some? || c.Register? || c.Login?
    ensures ReadOnly(c) && r.Success? ==> r.value == s
  {
    if c.Register? then StoreOf(Accounts.Register(s, c.name, c.email, c.password, c.role))
    else if c.Login? then
      var _ :- Accounts.Login(s, c.email, c.password);
      Success(s)
    else
      var me := caller.value.id;
      if CourseCall(c) then ApplyCourse(s, me, c)
      else if LessonCall(c) then ApplyLesson(s, me, c)
      else if AssignmentCall(c) then ApplyAssignment(s, me, c)
      else ApplyOwn(s, me, c)
  }

  /** One request: the route's middleware, then its handler. */
  function Handle(s: Store, header: Option<string>, c: Call): (r: Result<Store, Error>)
    ensures Gate(s, header, EndpointOf(c)).Failure? ==> r == Failure(Gate(s, header, EndpointOf(c)).error)
    ensures r.Success? ==> Gate(s, header, EndpointOf(c)).Success?
    ensures ReadOnly(c) && r.Success? ==> r.value == s
  {
    var caller :- Gate(s, header, EndpointOf(c));
    Apply(s, caller, c)
  }

  /** On every route but register and login, a caller the header does not
      identify gets the identity check's 401 and no handler runs. */
  lemma IdentityFirst(s: Store, header: Option<string>, c: Call)
    requires !c.Register? && !c.Login?
    requires Protect(s, header).Failure?
    ensures Handle(s, header, c) == Failure(Protect(s, header).error)
    ensures Status(Handle(s, header, c).error) == 401
  {
  }

  /** An identified caller whose role the route does not admit gets 403 and
      no handler runs. */
  lemma RoleSecond(s: Store, header: Option<string>, c: Call)
    requires Protect(s, header).Success?
    requires AccessOf(EndpointOf(c)).Restricted?
    requires Protect(s, header).value.role !in AccessOf(EndpointOf(c)).roles
    ensures Handle(s, header, c) == Failure(Forbidden(Protect(s, header).value.role))
  {
  }

  /** A request that succeeds on a restricted route came from a caller of an
      admitted role. */
  lemma SuccessMeansAdmitted(s: Store, header: Option<string>, c: Call)
    requires Handle(s, header, c).Success?
    requires AccessOf(EndpointOf(c)).Restricted?
    ensures CallerRole(s, header).Some? && CallerRole(s, header).value in AccessOf(EndpointOf(c)).roles
  {
  }

  /** Lesson and assignment edits do not look at who asks: any two admitted
      callers get the same outcome, so an instructor can change another
      instructor's lesson or assignment. */
  lemma EditsIgnoreOwner(s: Store, h1: Option<string>, h2: Option<string>, c: Call)
    requires c.UpdateLesson? || c.DeleteLesson? || c.UpdateAssignment? || c.DeleteAssignment?
    requires Gate(s, h1, EndpointOf(c)).Success? && Gate(s, h2, EndpointOf(c)).Success?
    ensures Handle(s, h1, c) == Handle(s, h2, c)
  {
  }

  /** A call that may run in a sequence kept within the invariant: every call
      except an update of a course to a record that breaks `CourseInv`
      (the merged body of `updateCourse` is arbitrary). */
  predicate PatchKeepsCourseInv(c: Call) {
    c.UpdateCourse? ==> Courses.CourseInv(c.course)
  }

  lemma CourseStepKeepsInv(s: Store, me: Id, c: Call)
    requires CourseCall(c)
    requires Inv(s) && PatchKeepsCourseInv(c) && ApplyCourse(s, me, c).Success?
    ensures Inv(ApplyCourse(s, me, c).value)
  {
    match c {
      case CreateCourse(title, description, code, limit) =>
        CreateCourseKeepsInv(s, title, description, code, limit);
      case UpdateCourse(id, course) =>
        UpdateCourseKeepsInv(s, id, course);
      case DeleteCourse(id) =>
        DeleteCourseKeepsInv(s, id);
      case JoinCourse(id, choice) =>
        JoinCourseKeepsInv(s, me, id, choice);
      case EnrollCourse(id, instructorId) =>
        EnrollCourseKeepsInv(s, me, id, instructorId);
      case _ =>
    }
  }

  lemma LessonStepKeepsInv(s: Store, me: Id, c: Call)
    requires LessonCall(c)
    requires Inv(s) && ApplyLesson(s, me, c).Success?
    ensures Inv(ApplyLesson(s, me, c).value)
  {
    var r := ApplyLesson(s, me, c).value;
    match c {
      case CreateLesson(_, _, _, _) =>
        OtherTablesKeepInv(s, r.lessons, s.assignments, r.nextId);
      case UpdateLesson(_, _) =>
        OtherTablesKeepInv(s, r.lessons, s.assignments, s.nextId);
      case DeleteLesson(_) =>
        OtherTablesKeepInv(s, r.lessons, s.assignments, s.nextId);
      case CompleteLesson(id, courseId) =>
        CompleteLessonKeepsInv(s, me, id, courseId);
      case _ =>
    }
  }

  lemma AssignmentStepKeepsInv(s: Store, me: Id, c: Call)
    requires AssignmentCall(c)
    requires Inv(s) && ApplyAssignment(s, me, c).Success?
    ensures Inv(ApplyAssignment(s, me, c).value)
  {
    var r := ApplyAssignment(s, me, c).value;
    match c {
      case CreateAssignment(_, _, _, _) =>
        OtherTablesKeepInv(s, s.lessons, r.assignments, r.nextId);
      case UpdateAssignment(_, _) =>
        OtherTablesKeepInv(s, s.lessons, r.assignments, s.nextId);
      case DeleteAssignment(_) =>
        OtherTablesKeepInv(s, s.lessons, r.assignments, s.nextId);
      case SubmitAssignment(id, content) =>
        SubmitKeepsInv(s, me, id, content);
      case _ =>
    }
  }

  lemma OwnStepKeepsInv(s: Store, me: Id, c: Call)
    requires OwnCall(c)
    requires Inv(s) && ApplyOwn(s, me, c).Success?
    ensures Inv(ApplyOwn(s, me, c).value)
  {
    if c.UpdateProfile? {
      UpdateProfileKeepsInv(s, me, c.name, c.file);
    }
  }

  /** Every handler keeps the invariant. */
  lemma ApplyKeepsInv(s: Store, caller: Option<Profile>, c: Call)
    requires caller.Some? || c.Register? || c.Login?
    requires Inv(s) && PatchKeepsCourseInv(c) && Apply(s, caller, c).Success?
    ensures Inv(Apply(s, caller, c).value)
  {
    if c.Register? {
      RegisterStepKeepsInv(s, caller, c);
    } else if c.Login? {
      assert ReadOnly(c);
    } else {
      GroupKeepsInv(s, caller.value, c);
    }
  }

  lemma RegisterStepKeepsInv(s: Store, caller: Option<Profile>, c: Call)
    requires c.Register?
    requires Inv(s) && Apply(s, caller, c).Success?
    ensures Inv(Apply(s, caller, c).value)
  {
    assert Apply(s, caller, c) == StoreOf(Accounts.Register(s, c.name, c.email, c.password, c.role));
    RegisterKeepsInv(s, c.name, c.email, c.password, c.role);
  }

  lemma GroupKeepsInv(s: Store, caller: Profile, c: Call)
    requires !c.Register? && !c.Login?
    requires Inv(s) && PatchKeepsCourseInv(c) && Apply(s, Some(caller), c).Success?
    ensures Inv(Apply(s, Some(caller), c).value)
  {
    var me := caller.id;
    if CourseCall(c) {
      assert Apply(s, Some(caller), c) == ApplyCourse(s, me, c);
      CourseStepKeepsInv(s, me, c);
    } else if LessonCall(c) {
      assert Apply(s, Some(caller), c) == ApplyLesson(s, me, c);
      LessonStepKeepsInv(s, me, c);
    } else if AssignmentCall(c) {
      assert Apply(s, Some(caller), c) == ApplyAssignment(s, me, c);
      AssignmentStepKeepsInv(s, me, c);
    } else {
      assert Apply(s, Some(caller), c) == ApplyOwn(s, me, c);
      OwnStepKeepsInv(s, me, c);
    }
  }

  /** One request keeps the invariant. */
  lemma StepKeepsInv(s: Store, header: Option<string>, c: Call)
    requires Inv(s) && PatchKeepsCourseInv(c)
    requires Handle(s, header, c).Success?
    ensures Inv(Handle(s, header, c).value)
  {
    var caller := Gate(s, header, EndpointOf(c)).value;
    OnlyAccountRoutesOpen(c);
    assert Handle(s, header, c) == Apply(s, caller, c);
    ApplyKeepsInv(s, caller, c);
  }

  /** A request: the header and the call. */
  datatype Request = Request(header: Option<string>, call: Call)

  /** Requests handled in order; a refused request leaves the store as it was. */
  function Run(s: Store, reqs: seq<Request>): Store
    decreases |reqs|
  {
    if reqs == [] then s
    else
      var r := Handle(s, reqs[0].header, reqs[0].call);
      Run(if r.Success? then r.value else s, reqs[1..])
  }

  /** Any sequence of requests in which no course update carries a record
      breaking `CourseInv` keeps the invariant; in particular no course
      ever holds more instructors than its limit admits, section labels stay
      distinct, and no enrollment, submission or email is duplicated. */
  lemma {:induction false} RunKeepsInv(s: Store, reqs: seq<Request>)
    requires Inv(s)
    requires forall k :: 0 <= k < |reqs| ==> PatchKeepsCourseInv(reqs[k].call)
    ensures Inv(Run(s, reqs))
    decreases |reqs|
  {
    if reqs != [] {
      var r := Handle(s, reqs[0].header, reqs[0].call);
      if r.Success? {
        StepKeepsInv(s, reqs[0].header, reqs[0].call);
      }
      RunKeepsInv(if r.Success? then r.value else s, reqs[1..]);
    }
  }

  /** From the empty store, every course stays within its instructor limit
      and keeps distinct section labels, whatever requests arrive, as long as
      no course update carries a record breaking `CourseInv`. */
  lemma CoursesStayWithinLimits(reqs: seq<Request>)
    requires forall k :: 0 <= k < |reqs| ==> PatchKeepsCourseInv(reqs[k].call)
    ensures var cs := Run(EmptyStore, reqs).courses;
      forall j :: 0 <= j < |cs| ==>
        |cs[j].val.instructors| <= Courses.Max0(cs[j].val.instructorLimit)
        && Sections.LabelsDistinct(cs[j].val.instructorSections)
  {
    EmptyStoreInv();
    RunKeepsInv(EmptyStore, reqs);
  }
}
