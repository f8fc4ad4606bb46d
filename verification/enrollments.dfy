/** backend/controllers/enrollmentController.js: the enrollment queries. */
module Enrollments {
  import opened Results
  import opened Tables
  import opened Errors
  import opened Records
  import opened Db
  import Courses

  predicate EnrolledIn(x: Row<Enrollment>, student: Id, courseId: Id) {
    x.val.studentId == student && x.val.courseId == courseId
  }

  /** The first enrollment of the student in the course, as `findOne` finds it. */
  function FindEnrollment(s: Store, student: Id, courseId: Id): (r: Option<nat>)
    ensures r.None? <==> forall j :: 0 <= j < |s.enrollments| ==> !EnrolledIn(s.enrollments[j], student, courseId)
    ensures r.Some? ==> r.value < |s.enrollments| && EnrolledIn(s.enrollments[r.value], student, courseId)
    ensures r.Some? ==> forall j :: 0 <= j < r.value ==> !EnrolledIn(s.enrollments[j], student, courseId)
  {
    FirstWhere(s.enrollments, (x: Row<Enrollment>) => EnrolledIn(x, student, courseId))
  }

  /** `getEnrollments`: exactly the caller's enrollments, in table order. */
  function GetEnrollments(s: Store, me: Id): (r: seq<Row<Enrollment>>)
    ensures forall i :: 0 <= i < |r| ==> r[i] in s.enrollments && r[i].val.studentId == me
    ensures forall j :: 0 <= j < |s.enrollments| && s.enrollments[j].val.studentId == me ==> s.enrollments[j] in r
  {
    Where(s.enrollments, (x: Row<Enrollment>) => x.val.studentId == me)
  }

  /** `getEnrollment`: the caller's first enrollment in the course, or 404. */
  function GetEnrollment(s: Store, me: Id, courseId: Id): (r: Result<Row<Enrollment>, Error>)
    ensures r.Failure? <==> forall j :: 0 <= j < |s.enrollments| ==> !EnrolledIn(s.enrollments[j], me, courseId)
    ensures r.Failure? ==> r.error == EnrollmentNotFound
    ensures r.Success? ==> r.value in s.enrollments && r.value.val.studentId == me && r.value.val.courseId == courseId
  {
    match FindEnrollment(s, me, courseId)
    case None => Failure(EnrollmentNotFound)
    case Some(i) => Success(s.enrollments[i])
  }

  predicate TaughtBy(x: Row<Enrollment>, courseId: Id, instructorId: Id) {
    x.val.courseId == courseId && x.val.instructorId == instructorId
  }

  /** The student ids of the rows, in order. */
  function StudentsOf(t: seq<Row<Enrollment>>): (r: seq<Id>)
    ensures |r| == |t|
    ensures forall i :: 0 <= i < |t| ==> r[i] == t[i].val.studentId
    decreases |t|
  {
    if t == [] then [] else StudentsOf(t[..|t| - 1]) + [t[|t| - 1].val.studentId]
  }

  /** `getStudentsByInstructor`: one student id per enrollment of the course
      with that instructor (a student enrolled twice appears twice). */
  function StudentsByInstructor(s: Store, courseId: Id, instructorId: Id): (r: seq<Id>)
    ensures |r| == |Where(s.enrollments, (x: Row<Enrollment>) => TaughtBy(x, courseId, instructorId))|
    ensures forall i :: 0 <= i < |r| ==>
      exists j :: 0 <= j < |s.enrollments| && TaughtBy(s.enrollments[j], courseId, instructorId) && s.enrollments[j].val.studentId == r[i]
    ensures forall j :: 0 <= j < |s.enrollments| && TaughtBy(s.enrollments[j], courseId, instructorId) ==>
      s.enrollments[j].val.studentId in r
  {
    var found := Where(s.enrollments, (x: Row<Enrollment>) => TaughtBy(x, courseId, instructorId));
    var r := StudentsOf(found);
    forall i | 0 <= i < |r|
      ensures exists j :: 0 <= j < |s.enrollments| && TaughtBy(s.enrollments[j], courseId, instructorId) && s.enrollments[j].val.studentId == r[i]
    {
      var j :| 0 <= j < |s.enrollments| && s.enrollments[j] == found[i];
    }
    forall j | 0 <= j < |s.enrollments| && TaughtBy(s.enrollments[j], courseId, instructorId)
      ensures s.enrollments[j].val.studentId in r
    {
      var i :| 0 <= i < |found| && found[i] == s.enrollments[j];
      assert r[i] == s.enrollments[j].val.studentId;
    }
    r
  }

  /** Right after a successful enroll the student is among the students
      listed for that course and instructor. */
  lemma EnrolledStudentListed(s: Store, me: Id, courseId: Id, instructorId: Option<Id>)
    requires Courses.EnrollCourse(s, me, courseId, instructorId).Success?
    ensures var t := Courses.EnrollCourse(s, me, courseId, instructorId).value.store;
      me in StudentsByInstructor(t, courseId, instructorId.value)
  {
    var t := Courses.EnrollCourse(s, me, courseId, instructorId).value.store;
    assert TaughtBy(t.enrollments[|s.enrollments|], courseId, instructorId.value);
  }
}
