/** What the handlers keep true of the whole store when they run one after
    another: every course within its limit with distinct section labels,
    unique course codes and ids, one enrollment per (student, course,
    instructor), no lesson completed twice in an enrollment, one submission
    per (assignment, student), unique emails. */
module Invariants {
  import opened Results
  import opened Tables
  import opened Records
  import opened Db
  import opened Courses
  import opened Lessons
  import opened Assignments
  import opened Accounts
  import opened Enrollments

  predicate CoursesInv(cs: seq<Row<Course>>) {
    forall j :: 0 <= j < |cs| ==> CourseInv(cs[j].val)
  }

  predicate UniqueCodes(cs: seq<Row<Course>>) {
    forall i, j :: 0 <= i < j < |cs| ==> cs[i].val.code != cs[j].val.code
  }

  /** Course ids are pairwise different and below the next id to hand out. */
  predicate CourseIdsFresh(cs: seq<Row<Course>>, next: Id) {
    && (forall i, j :: 0 <= i < j < |cs| ==> cs[i].id != cs[j].id)
    && (forall j :: 0 <= j < |cs| ==> cs[j].id < next)
  }

  predicate UniqueEnrollments(es: seq<Row<Enrollment>>) {
    forall i, j :: 0 <= i < j < |es| ==>
      !SameEnrollment(es[j].val, es[i].val.studentId, es[i].val.courseId, es[i].val.instructorId)
  }

  predicate CompletionsDistinct(es: seq<Row<Enrollment>>) {
    forall j :: 0 <= j < |es| ==> Distinct(es[j].val.completedLessons)
  }

  predicate UniqueEmails(us: seq<Row<User>>) {
    forall i, j :: 0 <= i < j < |us| ==> us[i].val.email != us[j].val.email
  }

  predicate Inv(s: Store) {
    && CoursesInv(s.courses)
    && UniqueCodes(s.courses)
    && CourseIdsFresh(s.courses, s.nextId)
    && UniqueEnrollments(s.enrollments)
    && CompletionsDistinct(s.enrollments)
    && UniqueSubmissions(s.submissions)
    && UniqueEmails(s.users)
  }

  lemma EmptyStoreInv()
    ensures Inv(EmptyStore)
  {
  }

  /** Changing lessons and assignments and moving the id source forward
      keeps the invariant: it says nothing about those tables. */
  lemma OtherTablesKeepInv(s: Store, lessons: seq<Row<Lesson>>, assignments: seq<Row<Assignment>>, next: Id)
    requires Inv(s) && next >= s.nextId
    ensures Inv(s.(lessons := lessons, assignments := assignments, nextId := next))
  {
  }

  lemma CreateCourseKeepsInv(s: Store, title: string, description: string, code: string, limit: Option<int>)
    requires Inv(s)
    requires CreateCourse(s, title, description, code, limit).Success?
    ensures Inv(CreateCourse(s, title, description, code, limit).value.store)
  {
    var r := CreateCourse(s, title, description, code, limit).value;
    var cs := r.store.courses;
    EmptyCourseInv(r.body.val);
    assert forall j :: 0 <= j < |s.courses| ==> cs[j] == s.courses[j];
    assert cs[|s.courses|] == r.body;
  }

  /** An update keeps the invariant when the new record itself satisfies
      `CourseInv`; the unique index keeps the codes apart. */
  lemma UpdateCourseKeepsInv(s: Store, id: Id, patch: Course)
    requires Inv(s) && CourseInv(patch)
    requires UpdateCourse(s, id, patch).Success?
    ensures Inv(UpdateCourse(s, id, patch).value.store)
  {
    var i := IndexOf(s.courses, id).value;
    var cs := UpdateCourse(s, id, patch).value.store.courses;
    forall a, b | 0 <= a < b < |cs|
      ensures cs[a].val.code != cs[b].val.code
    {
      if a == i {
        assert s.courses[b].id != id;
      } else if b == i {
        assert s.courses[a].id != id;
      }
    }
  }

  lemma DeleteCourseKeepsInv(s: Store, id: Id)
    requires Inv(s)
    requires DeleteCourse(s, id).Success?
    ensures Inv(DeleteCourse(s, id).value)
  {
    var i := IndexOf(s.courses, id).value;
    var cs := DeleteCourse(s, id).value.courses;
    assert cs == Drop(s.courses, i);
    forall a, b | 0 <= a < b < |cs|
      ensures cs[a].val.code != cs[b].val.code && cs[a].id != cs[b].id
    {
      var a' := if a < i then a else a + 1;
      var b' := if b < i then b else b + 1;
      assert cs[a] == s.courses[a'] && cs[b] == s.courses[b'];
    }
    forall j | 0 <= j < |cs|
      ensures CourseInv(cs[j].val) && cs[j].id < s.nextId
    {
      var j' := if j < i then j else j + 1;
      assert cs[j] == s.courses[j'];
    }
  }

  /** Replacing a course by a record that satisfies `CourseInv` and keeps its
      code keeps the invariant. */
  lemma PutCourseKeepsInv(s: Store, i: nat, c: Course)
    requires Inv(s) && i < |s.courses|
    requires CourseInv(c) && c.code == s.courses[i].val.code
    ensures Inv(s.(courses := Put(s.courses, i, c)))
  {
  }

  lemma JoinCourseKeepsInv(s: Store, me: Id, id: Id, choice: nat)
    requires Inv(s)
    ensures JoinCourse(s, me, id, choice).Success? ==> Inv(JoinCourse(s, me, id, choice).value.store)
  {
    if JoinCourse(s, me, id, choice).Failure? {
      return;
    }
    var i := IndexOf(s.courses, id).value;
    var c := s.courses[i].val;
    var c' := JoinCourse(s, me, id, choice).value.body.course;
    assert CourseInv(c') && c'.code == c.code by {
      JoinKeepsCourseInv(c, me, choice);
    }
    PutCourseKeepsInv(s, i, c');
  }

  lemma EnrollCourseKeepsInv(s: Store, me: Id, id: Id, instructorId: Option<Id>)
    requires Inv(s)
    requires EnrollCourse(s, me, id, instructorId).Success?
    ensures Inv(EnrollCourse(s, me, id, instructorId).value.store)
  {
    var r := EnrollCourse(s, me, id, instructorId).value;
    var i := IndexOf(s.courses, id).value;
    assert CourseInv(s.courses[i].val);
    var es := r.store.enrollments;
    assert forall j :: 0 <= j < |s.enrollments| ==> es[j] == s.enrollments[j];
    assert es[|s.enrollments|] == r.body.enrollment;
  }

  lemma CompleteLessonKeepsInv(s: Store, me: Id, lessonId: Id, courseId: Id)
    requires Inv(s)
    requires CompleteLesson(s, me, lessonId, courseId).Success?
    ensures Inv(CompleteLesson(s, me, lessonId, courseId).value.store)
  {
    CompleteKeepsNoRepeats(s, me, lessonId, courseId);
    var i := FindEnrollment(s, me, courseId).value;
    var es := CompleteLesson(s, me, lessonId, courseId).value.store.enrollments;
    assert forall j :: 0 <= j < |es| ==>
      es[j].val.studentId == s.enrollments[j].val.studentId
      && es[j].val.courseId == s.enrollments[j].val.courseId
      && es[j].val.instructorId == s.enrollments[j].val.instructorId;
  }

  lemma SubmitKeepsInv(s: Store, me: Id, assignmentId: Id, content: string)
    requires Inv(s)
    requires SubmitAssignment(s, me, assignmentId, content).Success?
    ensures Inv(SubmitAssignment(s, me, assignmentId, content).value.store)
  {
    SubmitKeepsUnique(s, me, assignmentId, content);
  }

  lemma RegisterKeepsInv(s: Store, name: string, email: string, password: string, role: Option<string>)
    requires Inv(s)
    requires Register(s, name, email, password, role).Success?
    ensures Inv(Register(s, name, email, password, role).value.store)
  {
    var us := Register(s, name, email, password, role).value.store.users;
    assert forall j :: 0 <= j < |s.users| ==> us[j] == s.users[j];
    assert us[|s.users|].val.email == email;
  }

  lemma UpdateProfileKeepsInv(s: Store, me: Id, name: string, file: Option<string>)
    requires Inv(s)
    requires UpdateProfile(s, me, name, file).Success?
    ensures Inv(UpdateProfile(s, me, name, file).value.store)
  {
    var us := UpdateProfile(s, me, name, file).value.store.users;
    assert forall j :: 0 <= j < |us| ==> us[j].val.email == s.users[j].val.email;
  }
}
