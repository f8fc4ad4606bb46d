/** backend/controllers/courseController.js: the course catalog, the
    instructor roster with its sections, and student enrollment. */
module Courses {
  import opened Results
  import opened Tables
  import opened Errors
  import opened Records
  import opened Db
  import opened Sections

  function Max0(n: int): nat {
    if n < 0 then 0 else n
  }

  /** The roster never outgrows the limit (a limit below zero admits nobody). */
  predicate WithinCapacity(c: Course) {
    |c.instructors| <= Max0(c.instructorLimit)
  }

  /** One section entry per instructor, in joining order. */
  predicate SectionsAligned(c: Course) {
    && |c.instructorSections| == |c.instructors|
    && forall i :: 0 <= i < |c.instructors| ==> c.instructorSections[i].instructor == c.instructors[i]
  }

  /** What joins alone keep true of a course. */
  predicate CourseInv(c: Course) {
    && WithinCapacity(c)
    && SectionsAligned(c)
    && Distinct(c.instructors)
    && LabelsDistinct(c.instructorSections)
    && LabelsAdmissible(Pool, c.instructorSections)
  }

  predicate CodeInUse(courses: seq<Row<Course>>, code: string) {
    exists j :: 0 <= j < |courses| && courses[j].val.code == code
  }

  /** `getCourse`: the course with that id, or 404. */
  function GetCourse(s: Store, id: Id): (r: Result<Row<Course>, Error>)
    ensures r.Failure? <==> forall j :: 0 <= j < |s.courses| ==> s.courses[j].id != id
    ensures r.Failure? ==> r.error == CourseNotFound
    ensures r.Success? ==> r.value in s.courses && r.value.id == id
  {
    match IndexOf(s.courses, id)
    case None => Failure(CourseNotFound)
    case Some(i) => Success(s.courses[i])
  }

  /** The limit a new course gets: `instructorLimit || 1`. */
  function LimitOrOne(limit: Option<int>): (n: int)
    ensures n != 0
    ensures limit.None? || limit == Some(0) ==> n == 1
    ensures limit.Some? && limit.value != 0 ==> n == limit.value
  {
    if limit.None? || limit.value == 0 then 1 else limit.value
  }

  /** `createCourse`: rejects a code already in use, then creates the course. */
  function CreateCourse(s: Store, title: string, description: string, code: string, limit: Option<int>)
    : (r: Result<Reply<Row<Course>>, Error>)
    ensures CodeInUse(s.courses, code) ==> r == Failure(CodeTaken)
    ensures r.Success? <==> !CodeInUse(s.courses, code) && title != "" && description != "" && code != ""
    ensures r.Failure? && !CodeInUse(s.courses, code) ==> Status(r.error) == 500
    ensures r.Success? ==> r.value.store == s.(courses := s.courses + [r.value.body], nextId := s.nextId + 1)
    ensures r.Success? ==> r.value.body.id == s.nextId
    ensures r.Success? ==> var c := r.value.body.val;
      && c.title == title && c.description == description && c.code == code
      && c.instructors == [] && c.instructorSections == [] && c.students == []
    ensures r.Success? && limit.Some? && limit.value != 0 ==> r.value.body.val.instructorLimit == limit.value
    ensures r.Success? && (limit.None? || limit == Some(0)) ==> r.value.body.val.instructorLimit == 1
  {
    match FirstWhere(s.courses, (x: Row<Course>) => x.val.code == code)
    case Some(_) => Failure(CodeTaken)
    case None =>
      var c :- NewCourse(title, description, code, LimitOrOne(limit));
      var row := Row(s.nextId, c);
      Success(Reply(s.(courses := s.courses + [row], nextId := s.nextId + 1), row))
  }

  /** `updateCourse`: 404 for a missing course; otherwise the merged record
      `patch` replaces it, unless the unique index on `code` refuses it. */
  function UpdateCourse(s: Store, id: Id, patch: Course): (r: Result<Reply<Row<Course>>, Error>)
    ensures IndexOf(s.courses, id).None? ==> r == Failure(CourseNotFound)
    ensures r.Success? ==> IndexOf(s.courses, id).Some?
    ensures IndexOf(s.courses, id).Some? ==> var i := IndexOf(s.courses, id).value;
      && (r.Failure? <==> exists j :: 0 <= j < |s.courses| && s.courses[j].id != id && s.courses[j].val.code == patch.code)
      && (r.Failure? ==> r.error == DuplicateKey("code"))
      && (r.Success? ==> r.value.store == s.(courses := Put(s.courses, i, patch)) && r.value.body == Row(id, patch))
  {
    match IndexOf(s.courses, id)
    case None => Failure(CourseNotFound)
    case Some(i) =>
      match FirstWhere(s.courses, (x: Row<Course>) => x.id != id && x.val.code == patch.code)
      case Some(_) => Failure(DuplicateKey("code"))
      case None => Success(Reply(s.(courses := Put(s.courses, i, patch)), Row(id, patch)))
  }

  /** `deleteCourse`: 404 for a missing course; otherwise only the course row
      goes. Lessons, assignments and enrollments that point at it remain. */
  function DeleteCourse(s: Store, id: Id): (r: Result<Store, Error>)
    ensures r.Failure? <==> forall j :: 0 <= j < |s.courses| ==> s.courses[j].id != id
    ensures r.Failure? ==> r.error == CourseNotFound
    ensures r.Success? ==> |r.value.courses| == |s.courses| - 1
    ensures r.Success? ==> r.value == s.(courses := r.value.courses)
    ensures r.Success? ==> forall x :: x in r.value.courses ==> x in s.courses
    ensures r.Success? ==>
      exists i :: 0 <= i < |s.courses| && s.courses[i].id == id
        && (forall j :: 0 <= j < i ==> s.courses[j].id != id)
        && r.value.courses == s.courses[..i] + s.courses[i + 1..]
  {
    match IndexOf(s.courses, id)
    case None => Failure(CourseNotFound)
    case Some(i) => Success(s.(courses := Drop(s.courses, i)))
  }

  /** With unique course ids, a deletion leaves exactly the other courses. */
  lemma DeleteCourseRemovesIt(s: Store, id: Id)
    requires UniqueIds(s.courses)
    ensures var r := DeleteCourse(s, id);
      r.Success? ==> forall x :: x in r.value.courses <==> x in s.courses && x.id != id
  {
    if DeleteCourse(s, id).Success? {
      DropRemovesId(s.courses, IndexOf(s.courses, id).value);
    }
  }

  /** The outcome of a join: the updated course and the section assigned. */
  datatype Joined = Joined(course: Course, section: string)

  /** The label a join onto `c` draws from `pool`. */
  function DrawFrom(pool: seq<string>, c: Course, choice: nat): string {
    PickSection(pool, Used(c.instructorSections), |c.instructors|, choice)
  }

  /** The section label `joinCourse` assigns: a pool label no section of the
      course uses yet, chosen by `choice`, or `v<n+1>` for a course with n
      instructors once every pool label is taken. */
  function DrawSection(c: Course, choice: nat): (l: string)
    ensures (exists p :: p in Pool && p !in Used(c.instructorSections)) ==>
      l in Pool && l !in Used(c.instructorSections)
    ensures (forall p :: p in Pool ==> p in Used(c.instructorSections)) ==>
      l == Label(|c.instructors| + 1)
  {
    DrawFrom(Pool, c, choice)
  }

  /** Every label of the pool that the course does not use yet can be drawn. */
  lemma EveryFreeSectionDrawable(c: Course, p: string)
    requires p in Pool && p !in Used(c.instructorSections)
    ensures exists choice: nat :: DrawSection(c, choice) == p
  {
    EveryFreeLabelCanBePicked(Pool, Used(c.instructorSections), |c.instructors|, p);
    var k: nat :| PickSection(Pool, Used(c.instructorSections), |c.instructors|, k) == p;
    assert DrawSection(c, k) == p;
  }

  /** The roster part of `joinCourse`: the two guards, then the instructor and
      a section with the drawn label `tag` are appended. */
  function JoinRoster(c: Course, me: Id, tag: string): (r: Result<Course, Error>)
    ensures me in c.instructors ==> r == Failure(AlreadyTeaching)
    ensures me !in c.instructors && |c.instructors| >= c.instructorLimit ==> r == Failure(CapacityReached)
    ensures r.Success? <==> me !in c.instructors && |c.instructors| < c.instructorLimit
    ensures r.Success? ==> |r.value.instructors| <= c.instructorLimit
    ensures r.Success? ==> r.value == c.(
      instructors := c.instructors + [me],
      instructorSections := c.instructorSections + [Section(me, tag)])
  {
    if me in c.instructors then Failure(AlreadyTeaching)
    else if |c.instructors| >= c.instructorLimit then Failure(CapacityReached)
    else Success(c.(instructors := c.instructors + [me],
                    instructorSections := c.instructorSections + [Section(me, tag)]))
  }

  /** `joinCourse`: 404 for a missing course, then the roster guards; on
      success only that course's record changes, and the reply names the
      section assigned. */
  function JoinCourse(s: Store, me: Id, id: Id, choice: nat): (r: Result<Reply<Joined>, Error>)
    ensures IndexOf(s.courses, id).None? ==> r == Failure(CourseNotFound)
    ensures IndexOf(s.courses, id).Some? ==>
      var i := IndexOf(s.courses, id).value;
      var l := DrawSection(s.courses[i].val, choice);
      var j := JoinRoster(s.courses[i].val, me, l);
      && (j.Failure? ==> r == Failure(j.error))
      && (j.Success? ==> r == Success(Reply(s.(courses := Put(s.courses, i, j.value)), Joined(j.value, l))))
  {
    match IndexOf(s.courses, id)
    case None => Failure(CourseNotFound)
    case Some(i) =>
      var l := DrawSection(s.courses[i].val, choice);
      var c :- JoinRoster(s.courses[i].val, me, l);
      Success(Reply(s.(courses := Put(s.courses, i, c)), Joined(c, l)))
  }

  /** A join keeps everything `CourseInv` states. */
  lemma JoinKeepsCourseInv(c: Course, me: Id, choice: nat)
    requires CourseInv(c)
    ensures var r := JoinRoster(c, me, DrawSection(c, choice));
      r.Success? ==> CourseInv(r.value)
  {
    var r := JoinRoster(c, me, DrawSection(c, choice));
    if r.Success? {
      JoinKeepsRoster(c, me, DrawSection(c, choice));
      JoinKeepsLabels(c, me, choice);
    }
  }

  /** A join, whatever label it assigns, keeps the roster within capacity,
      aligned with the sections and free of repeats. */
  lemma JoinKeepsRoster(c: Course, me: Id, tag: string)
    requires SectionsAligned(c) && Distinct(c.instructors)
    requires JoinRoster(c, me, tag).Success?
    ensures var c' := JoinRoster(c, me, tag).value;
      WithinCapacity(c') && SectionsAligned(c') && Distinct(c'.instructors)
  {
    var xs := c.instructors;
    assert me !in xs;
    forall a, b | 0 <= a < b < |xs| + 1
      ensures (xs + [me])[a] != (xs + [me])[b]
    {
      if b == |xs| {
        assert (xs + [me])[a] == xs[a];
      }
    }
  }

  /** A join keeps the section labels distinct and admissible. */
  lemma JoinKeepsLabels(c: Course, me: Id, choice: nat)
    requires SectionsAligned(c)
    requires LabelsDistinct(c.instructorSections) && LabelsAdmissible(Pool, c.instructorSections)
    ensures var r := JoinRoster(c, me, DrawSection(c, choice));
      r.Success? ==> LabelsDistinct(r.value.instructorSections) && LabelsAdmissible(Pool, r.value.instructorSections)
  {
    PoolIsLabels();
    PickKeepsLabels(Pool, c.instructorSections, me, choice);
  }

  /** A course with nobody teaching satisfies `CourseInv`. */
  lemma EmptyCourseInv(c: Course)
    requires c.instructors == [] && c.instructorSections == []
    ensures CourseInv(c)
  {
  }

  /** Joins applied in order; a refused join leaves the course as it was. */
  function JoinSeries(c: Course, joins: seq<(Id, nat)>): Course
    decreases |joins|
  {
    if joins == [] then c
    else
      var r := JoinRoster(c, joins[0].0, DrawSection(c, joins[0].1));
      JoinSeries(if r.Success? then r.value else c, joins[1..])
  }

  /** From a course satisfying `CourseInv`, any sequence of joins keeps the
      roster within the limit and the section labels pairwise distinct. */
  lemma {:induction false} JoinsKeepLabelsDistinct(c: Course, joins: seq<(Id, nat)>)
    requires CourseInv(c)
    ensures CourseInv(JoinSeries(c, joins))
    ensures LabelsDistinct(JoinSeries(c, joins).instructorSections)
    ensures |JoinSeries(c, joins).instructors| <= Max0(c.instructorLimit)
    decreases |joins|
  {
    if joins != [] {
      var r := JoinRoster(c, joins[0].0, DrawSection(c, joins[0].1));
      JoinKeepsCourseInv(c, joins[0].0, joins[0].1);
      var next := if r.Success? then r.value else c;
      JoinsKeepLabelsDistinct(next, joins[1..]);
    }
  }

  /** True when `e` is the enrollment of that student with that instructor. */
  predicate SameEnrollment(e: Enrollment, student: Id, course: Id, instructor: Id) {
    e.studentId == student && e.courseId == course && e.instructorId == instructor
  }

  predicate HasEnrollment(enrollments: seq<Row<Enrollment>>, student: Id, course: Id, instructor: Id) {
    exists j :: 0 <= j < |enrollments| && SameEnrollment(enrollments[j].val, student, course, instructor)
  }

  /** The outcome of an enrollment: the course after the roster append and the
      new enrollment row. */
  datatype Enrolled = Enrolled(course: Row<Course>, enrollment: Row<Enrollment>)

  /** `enrollCourse`: 404 for a missing course, then: no instructor chosen,
      an instructor not teaching the course, an existing enrollment with that
      instructor. On success the student is appended to the course's students
      (even if already there through another instructor) and one enrollment is
      created. */
  function EnrollCourse(s: Store, me: Id, id: Id, instructorId: Option<Id>): (r: Result<Reply<Enrolled>, Error>)
    ensures IndexOf(s.courses, id).None? ==> r == Failure(CourseNotFound)
    ensures IndexOf(s.courses, id).Some? ==>
      var i := IndexOf(s.courses, id).value;
      var c := s.courses[i].val;
      && (instructorId.None? ==> r == Failure(NoInstructorChosen))
      && (instructorId.Some? && instructorId.value !in c.instructors ==> r == Failure(InstructorNotTeaching))
      && (instructorId.Some? && instructorId.value in c.instructors
          && HasEnrollment(s.enrollments, me, id, instructorId.value)
          ==> r == Failure(AlreadyEnrolled))
      && (r.Success? <==> instructorId.Some? && instructorId.value in c.instructors
                          && !HasEnrollment(s.enrollments, me, id, instructorId.value))
      && (r.Success? ==> r.value.body.course == Row(id, c.(students := c.students + [me])))
    ensures r.Success? ==> instructorId.Some? && IndexOf(s.courses, id).Some?
    ensures r.Success? ==> var e := Row(s.nextId, NewEnrollment(me, id, instructorId.value));
      && r.value.body.enrollment == e
      && r.value.store == s.(
           courses := Put(s.courses, IndexOf(s.courses, id).value, r.value.body.course.val),
           enrollments := s.enrollments + [e],
           nextId := s.nextId + 1)
  {
    match IndexOf(s.courses, id)
    case None => Failure(CourseNotFound)
    case Some(i) =>
      var c := s.courses[i].val;
      if instructorId.None? then Failure(NoInstructorChosen)
      else if instructorId.value !in c.instructors then Failure(InstructorNotTeaching)
      else
        var teacher := instructorId.value;
        match FirstWhere(s.enrollments, (x: Row<Enrollment>) => SameEnrollment(x.val, me, id, teacher))
        case Some(_) => Failure(AlreadyEnrolled)
        case None =>
          var c' := c.(students := c.students + [me]);
          var e := Row(s.nextId, NewEnrollment(me, id, teacher));
          Success(Reply(s.(courses := Put(s.courses, i, c'), enrollments := s.enrollments + [e], nextId := s.nextId + 1),
                        Enrolled(Row(id, c'), e)))
  }

  /** After a successful enroll exactly one enrollment links that student,
      course and instructor. */
  lemma EnrollCreatesExactlyOne(s: Store, me: Id, id: Id, instructorId: Option<Id>)
    requires EnrollCourse(s, me, id, instructorId).Success?
    ensures var t := EnrollCourse(s, me, id, instructorId).value.store.enrollments;
      |Where(t, (x: Row<Enrollment>) => SameEnrollment(x.val, me, id, instructorId.value))| == 1
  {
    var r := EnrollCourse(s, me, id, instructorId).value;
    var p := (x: Row<Enrollment>) => SameEnrollment(x.val, me, id, instructorId.value);
    WhereNone(s.enrollments, p);
    WhereSnoc(s.enrollments, r.body.enrollment, p);
  }

  /** While fewer than ten sections exist, the drawn label is an unused
      label of the pool. Stated for any pool of the labels `v1`..`v10`, which
      `Pool` is (`PoolIsLabels`). */
  lemma JoinDrawsFromPool(pool: seq<string>, c: Course, choice: nat)
    requires IsLabelPool(pool)
    requires |c.instructorSections| < 10
    ensures DrawFrom(pool, c, choice) in pool
    ensures DrawFrom(pool, c, choice) !in Used(c.instructorSections)
  {
    if |Unused(pool, Used(c.instructorSections))| == 0 {
      ExhaustedPoolMeansTen(pool, Used(c.instructorSections));
    }
  }

  /** A join into a course with room and fewer than ten sections succeeds,
      appends the instructor and records a fresh pool label. */
  lemma JoinWithRoom(pool: seq<string>, c: Course, me: Id, choice: nat)
    requires IsLabelPool(pool)
    requires me !in c.instructors && |c.instructors| < c.instructorLimit
    requires |c.instructorSections| < 10
    ensures var l := DrawFrom(pool, c, choice);
      var r := JoinRoster(c, me, l);
      && r.Success?
      && r.value.instructors == c.instructors + [me]
      && r.value.instructorLimit == c.instructorLimit
      && Used(r.value.instructorSections) == Used(c.instructorSections) + [l]
      && l in pool && l !in Used(c.instructorSections)
  {
    JoinDrawsFromPool(pool, c, choice);
  }

  /** Two instructors join an empty course with room for both: both get pool
      labels, and different ones. */
  lemma TwoJoins(pool: seq<string>, c: Course, a: Id, b: Id, ca: nat, cb: nat) returns (first: Course, second: Course)
    requires IsLabelPool(pool)
    requires c.instructorLimit >= 2 && c.instructors == [] && c.instructorSections == []
    requires a != b
    ensures JoinRoster(c, a, DrawFrom(pool, c, ca)) == Success(first)
    ensures JoinRoster(first, b, DrawFrom(pool, first, cb)) == Success(second)
    ensures DrawFrom(pool, c, ca) in pool && DrawFrom(pool, first, cb) in pool
    ensures DrawFrom(pool, c, ca) != DrawFrom(pool, first, cb)
    ensures second.instructors == [a, b] && second.instructorLimit == c.instructorLimit
  {
    var d1 := DrawFrom(pool, c, ca);
    JoinDrawsFromPool(pool, c, ca);
    first := c.(instructors := [a], instructorSections := [Section(a, d1)]);
    assert c.instructors + [a] == [a] && c.instructorSections + [Section(a, d1)] == [Section(a, d1)];
    var d2 := DrawFrom(pool, first, cb);
    JoinDrawsFromPool(pool, first, cb);
    assert Used(first.instructorSections) == [d1];
    second := first.(instructors := [a, b], instructorSections := [Section(a, d1), Section(b, d2)]);
    assert [a] + [b] == [a, b] && [Section(a, d1)] + [Section(b, d2)] == [Section(a, d1), Section(b, d2)];
  }

  /** The scenario of a course with limit 2: after two joins a third
      instructor is refused with "Capacity Reached". */
  lemma TwoSeatCourse(pool: seq<string>, c: Course, a: Id, b: Id, x: Id, ca: nat, cb: nat, cx: nat)
    returns (first: Course, second: Course)
    requires IsLabelPool(pool)
    requires c.instructorLimit == 2 && c.instructors == [] && c.instructorSections == []
    requires a != b && x != a && x != b
    ensures JoinRoster(c, a, DrawFrom(pool, c, ca)) == Success(first)
    ensures JoinRoster(first, b, DrawFrom(pool, first, cb)) == Success(second)
    ensures JoinRoster(second, x, DrawFrom(pool, second, cx)) == Failure(CapacityReached)
  {
    first, second := TwoJoins(pool, c, a, b, ca, cb);
  }
}
