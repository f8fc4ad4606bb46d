/** backend/controllers/assignmentController.js: the assignments of a course
    and the submissions students hand in. The assignment and submission
    schema files are not part of this model, so no field validation is
    applied to either record. */
module Assignments {
  import opened Results
  import opened Tables
  import opened Errors
  import opened Records
  import opened Db

  /** The rows of `t` in the opposite order. */
  function Reverse<T>(t: seq<T>): (r: seq<T>)
    ensures |r| == |t|
    ensures forall i :: 0 <= i < |t| ==> r[i] == t[|t| - 1 - i]
    decreases |t|
  {
    if t == [] then [] else [t[|t| - 1]] + Reverse(t[..|t| - 1])
  }

  predicate ForCourse(x: Row<Assignment>, courseId: Id) {
    x.val.courseId == courseId
  }

  /** `getAssignments`: the assignments of the course, newest first. Creation
      times grow with the order of creation, so `sort('-createdAt')` is the
      reverse of the table order. */
  function GetAssignments(s: Store, courseId: Id): (r: seq<Row<Assignment>>)
    ensures forall i :: 0 <= i < |r| ==> r[i] in s.assignments && r[i].val.courseId == courseId
    ensures forall j :: 0 <= j < |s.assignments| && s.assignments[j].val.courseId == courseId ==> s.assignments[j] in r
  {
    var found := Where(s.assignments, (x: Row<Assignment>) => ForCourse(x, courseId));
    var r := Reverse(found);
    assert forall j :: 0 <= j < |found| ==> found[j] == r[|found| - 1 - j];
    r
  }

  /** `createAssignment`: the assignment is recorded with the caller as its
      author. */
  function CreateAssignment(s: Store, me: Id, courseId: Id, title: string, description: string, dueDate: string)
    : (r: Reply<Row<Assignment>>)
    ensures r.body.val.createdBy == me
    ensures r.body.val == Assignment(courseId, title, description, dueDate, me)
    ensures r.body.id == s.nextId
    ensures r.store == s.(assignments := s.assignments + [r.body], nextId := s.nextId + 1)
  {
    var row := Row(s.nextId, Assignment(courseId, title, description, dueDate, me));
    Reply(s.(assignments := s.assignments + [row], nextId := s.nextId + 1), row)
  }

  /** A new assignment heads its course's list. */
  lemma NewestFirst(s: Store, me: Id, courseId: Id, title: string, description: string, dueDate: string)
    ensures var r := CreateAssignment(s, me, courseId, title, description, dueDate);
      var listed := GetAssignments(r.store, courseId);
      |listed| > 0 && listed[0] == r.body
  {
    var r := CreateAssignment(s, me, courseId, title, description, dueDate);
    WhereSnoc(s.assignments, r.body, (x: Row<Assignment>) => ForCourse(x, courseId));
  }

  /** `updateAssignment`: 404 for a missing assignment; otherwise `patch`, the
      record after merging the request body, replaces it. Who asks plays no
      part. */
  function UpdateAssignment(s: Store, id: Id, patch: Assignment): (r: Result<Reply<Row<Assignment>>, Error>)
    ensures r.Failure? <==> forall j :: 0 <= j < |s.assignments| ==> s.assignments[j].id != id
    ensures r.Failure? ==> r.error == AssignmentNotFound
    ensures r.Success? ==> r.value.body == Row(id, patch) && r.value.body in r.value.store.assignments
    ensures r.Success? ==> r.value.store == s.(assignments := r.value.store.assignments)
    ensures r.Success? ==> |r.value.store.assignments| == |s.assignments|
    ensures r.Success? ==> forall j :: 0 <= j < |s.assignments| && s.assignments[j].id != id ==>
      r.value.store.assignments[j] == s.assignments[j]
  {
    match IndexOf(s.assignments, id)
    case None => Failure(AssignmentNotFound)
    case Some(i) => Success(Reply(s.(assignments := Put(s.assignments, i, patch)), Row(id, patch)))
  }

  /** `deleteAssignment`: 404 for a missing assignment; otherwise only that
      assignment goes (its submissions stay). */
  function DeleteAssignment(s: Store, id: Id): (r: Result<Store, Error>)
    ensures r.Failure? <==> forall j :: 0 <= j < |s.assignments| ==> s.assignments[j].id != id
    ensures r.Failure? ==> r.error == AssignmentNotFound
    ensures r.Success? ==> r.value == s.(assignments := r.value.assignments)
    ensures r.Success? ==> |r.value.assignments| == |s.assignments| - 1
    ensures r.Success? ==> forall x :: x in r.value.assignments ==> x in s.assignments
    ensures r.Success? ==>
      exists i :: 0 <= i < |s.assignments| && s.assignments[i].id == id
        && (forall j :: 0 <= j < i ==> s.assignments[j].id != id)
        && r.value.assignments == s.assignments[..i] + s.assignments[i + 1..]
  {
    match IndexOf(s.assignments, id)
    case None => Failure(AssignmentNotFound)
    case Some(i) => Success(s.(assignments := Drop(s.assignments, i)))
  }

  /** With unique assignment ids, a deletion leaves exactly the other
      assignments. */
  lemma DeleteAssignmentRemovesIt(s: Store, id: Id)
    requires UniqueIds(s.assignments)
    ensures var r := DeleteAssignment(s, id);
      r.Success? ==> forall x :: x in r.value.assignments <==> x in s.assignments && x.id != id
  {
    if DeleteAssignment(s, id).Success? {
      DropRemovesId(s.assignments, IndexOf(s.assignments, id).value);
    }
  }

  predicate SubmittedBy(x: Row<Submission>, assignmentId: Id, student: Id) {
    x.val.assignmentId == assignmentId && x.val.studentId == student
  }

  predicate HasSubmitted(subs: seq<Row<Submission>>, assignmentId: Id, student: Id) {
    exists j :: 0 <= j < |subs| && SubmittedBy(subs[j], assignmentId, student)
  }

  /** `submitAssignment`: refused when the caller already submitted to that
      assignment; otherwise one submission is created. Neither the
      assignment's existence nor its due date is consulted. */
  function SubmitAssignment(s: Store, me: Id, assignmentId: Id, content: string): (r: Result<Reply<Row<Submission>>, Error>)
    ensures r.Failure? <==> HasSubmitted(s.submissions, assignmentId, me)
    ensures r.Failure? ==> r.error == AlreadySubmitted
    ensures r.Success? ==> r.value.body == Row(s.nextId, Submission(assignmentId, me, content))
    ensures r.Success? ==> r.value.store == s.(submissions := s.submissions + [r.value.body], nextId := s.nextId + 1)
  {
    match FirstWhere(s.submissions, (x: Row<Submission>) => SubmittedBy(x, assignmentId, me))
    case Some(_) => Failure(AlreadySubmitted)
    case None =>
      var row := Row(s.nextId, Submission(assignmentId, me, content));
      Success(Reply(s.(submissions := s.submissions + [row], nextId := s.nextId + 1), row))
  }

  /** After a first submission exactly one submission links that student and
      assignment, and a second attempt, whatever its content, is refused. */
  lemma SubmitOnce(s: Store, me: Id, assignmentId: Id, content: string, again: string)
    requires !HasSubmitted(s.submissions, assignmentId, me)
    ensures var r := SubmitAssignment(s, me, assignmentId, content);
      && r.Success?
      && |Where(r.value.store.submissions, (x: Row<Submission>) => SubmittedBy(x, assignmentId, me))| == 1
      && SubmitAssignment(r.value.store, me, assignmentId, again) == Failure(AlreadySubmitted)
  {
    var r := SubmitAssignment(s, me, assignmentId, content);
    var p := (x: Row<Submission>) => SubmittedBy(x, assignmentId, me);
    WhereNone(s.submissions, p);
    WhereSnoc(s.submissions, r.value.body, p);
    assert SubmittedBy(r.value.store.submissions[|s.submissions|], assignmentId, me);
  }

  /** The outcome of a submission does not depend on the assignments stored:
      it is the same whether or not the assignment exists. */
  lemma SubmitIgnoresAssignments(s: Store, others: seq<Row<Assignment>>, me: Id, assignmentId: Id, content: string)
    ensures var r := SubmitAssignment(s, me, assignmentId, content);
      var r' := SubmitAssignment(s.(assignments := others), me, assignmentId, content);
      && r.Success? == r'.Success?
      && (r.Success? ==> r'.value.body == r.value.body && r'.value.store == r.value.store.(assignments := others))
  {
  }

  /** No student has two submissions for one assignment. */
  predicate UniqueSubmissions(subs: seq<Row<Submission>>) {
    forall i, j :: 0 <= i < j < |subs| ==>
      !(subs[i].val.assignmentId == subs[j].val.assignmentId && subs[i].val.studentId == subs[j].val.studentId)
  }

  lemma SubmitKeepsUnique(s: Store, me: Id, assignmentId: Id, content: string)
    requires UniqueSubmissions(s.submissions)
    ensures var r := SubmitAssignment(s, me, assignmentId, content);
      r.Success? ==> UniqueSubmissions(r.value.store.submissions)
  {
    var r := SubmitAssignment(s, me, assignmentId, content);
    if r.Success? {
      var t := r.value.store.submissions;
      forall i, j | 0 <= i < j < |t|
        ensures !(t[i].val.assignmentId == t[j].val.assignmentId && t[i].val.studentId == t[j].val.studentId)
      {
        if j == |s.submissions| {
          assert t[i] == s.submissions[i];
          assert !SubmittedBy(s.submissions[i], assignmentId, me);
        } else {
          assert t[i] == s.submissions[i] && t[j] == s.submissions[j];
        }
      }
    }
  }

  /** `getSubmissions`: exactly the submissions for the assignment, in table
      order. */
  function GetSubmissions(s: Store, assignmentId: Id): (r: seq<Row<Submission>>)
    ensures forall i :: 0 <= i < |r| ==> r[i] in s.submissions && r[i].val.assignmentId == assignmentId
    ensures forall j :: 0 <= j < |s.submissions| && s.submissions[j].val.assignmentId == assignmentId ==> s.submissions[j] in r
  {
    Where(s.submissions, (x: Row<Submission>) => x.val.assignmentId == assignmentId)
  }

  /** A submission just made is listed for its assignment. */
  lemma SubmissionListed(s: Store, me: Id, assignmentId: Id, content: string)
    requires SubmitAssignment(s, me, assignmentId, content).Success?
    ensures var r := SubmitAssignment(s, me, assignmentId, content).value;
      r.body in GetSubmissions(r.store, assignmentId)
  {
    var r := SubmitAssignment(s, me, assignmentId, content).value;
    assert r.store.submissions[|s.submissions|] == r.body;
  }
}
