/** backend/controllers/lessonController.js: the lessons of a course and the
    completion record of an enrolled student. */
module Lessons {
  import opened Results
  import opened Tables
  import opened Errors
  import opened Records
  import opened Db
  import opened Enrollments

  /** Lessons in ascending `sequenceOrder`. */
  predicate Ordered(xs: seq<Row<Lesson>>) {
    forall i, j :: 0 <= i < j < |xs| ==> xs[i].val.sequenceOrder <= xs[j].val.sequenceOrder
  }

  /** Every lesson of `ys` comes at or after order `k`. */
  predicate From(k: int, ys: seq<Row<Lesson>>) {
    forall i :: 0 <= i < |ys| ==> k <= ys[i].val.sequenceOrder
  }

  /** `x` placed in front of the first lesson of `xs` that does not come
      before it. */
  function Insert(x: Row<Lesson>, xs: seq<Row<Lesson>>): (r: seq<Row<Lesson>>)
    requires Ordered(xs)
    ensures Ordered(r)
    ensures multiset(r) == multiset(xs) + multiset{x}
    ensures forall k :: k <= x.val.sequenceOrder && From(k, xs) ==> From(k, r)
    decreases |xs|
  {
    if xs == [] || x.val.sequenceOrder <= xs[0].val.sequenceOrder then [x] + xs
    else
      var rest := Insert(x, xs[1..]);
      InsertBehind(x, xs, rest);
      [xs[0]] + rest
  }

  /** Putting the head of `xs` in front of `x` inserted into the tail of
      `xs` gives `x` inserted into `xs`. */
  lemma InsertBehind(x: Row<Lesson>, xs: seq<Row<Lesson>>, rest: seq<Row<Lesson>>)
    requires Ordered(xs) && xs != [] && xs[0].val.sequenceOrder < x.val.sequenceOrder
    requires Ordered(rest) && multiset(rest) == multiset(xs[1..]) + multiset{x}
    requires forall k :: k <= x.val.sequenceOrder && From(k, xs[1..]) ==> From(k, rest)
    ensures Ordered([xs[0]] + rest)
    ensures multiset([xs[0]] + rest) == multiset(xs) + multiset{x}
    ensures forall k :: k <= x.val.sequenceOrder && From(k, xs) ==> From(k, [xs[0]] + rest)
  {
    assert xs == [xs[0]] + xs[1..];
    assert From(xs[0].val.sequenceOrder, xs[1..]);
    forall k | k <= x.val.sequenceOrder && From(k, xs)
      ensures From(k, [xs[0]] + rest)
    {
      assert From(k, xs[1..]);
    }
  }

  /** `sort('sequenceOrder')`: the same lessons in ascending order. */
  function SortByOrder(xs: seq<Row<Lesson>>): (r: seq<Row<Lesson>>)
    ensures Ordered(r)
    ensures multiset(r) == multiset(xs)
    decreases |xs|
  {
    if xs == [] then []
    else
      assert xs == [xs[0]] + xs[1..];
      Insert(xs[0], SortByOrder(xs[1..]))
  }

  /** Two sequences with the same multiset have the same members and length. */
  lemma SameMembers<T>(a: seq<T>, b: seq<T>)
    requires multiset(a) == multiset(b)
    ensures |a| == |b|
    ensures forall i :: 0 <= i < |a| ==> a[i] in b
    ensures forall j :: 0 <= j < |b| ==> b[j] in a
  {
    assert |a| == |multiset(a)|;
    forall i | 0 <= i < |a|
      ensures a[i] in b
    {
      assert a[i] in multiset(a);
    }
    forall j | 0 <= j < |b|
      ensures b[j] in a
    {
      assert b[j] in multiset(b);
    }
  }

  predicate InCourse(x: Row<Lesson>, courseId: Id) {
    x.val.courseId == courseId
  }

  /** The number of lessons recorded for a course (`countDocuments`). */
  function LessonCount(s: Store, courseId: Id): nat {
    |Where(s.lessons, (x: Row<Lesson>) => InCourse(x, courseId))|
  }

  /** A course's lesson count is at most the number of lessons, and it is 0
      exactly when no lesson belongs to the course. */
  lemma LessonCountBounds(s: Store, courseId: Id)
    ensures LessonCount(s, courseId) <= |s.lessons|
    ensures LessonCount(s, courseId) == 0 <==> forall j :: 0 <= j < |s.lessons| ==> s.lessons[j].val.courseId != courseId
  {
    var p := (x: Row<Lesson>) => InCourse(x, courseId);
    if forall j :: 0 <= j < |s.lessons| ==> !p(s.lessons[j]) {
      WhereNone(s.lessons, p);
    }
  }

  /** `getLessons`: exactly the lessons of the course, each as often as it is
      stored, in ascending `sequenceOrder`. */
  function GetLessons(s: Store, courseId: Id): (r: seq<Row<Lesson>>)
    ensures Ordered(r)
    ensures multiset(r) == multiset(Where(s.lessons, (x: Row<Lesson>) => InCourse(x, courseId)))
    ensures forall i :: 0 <= i < |r| ==> r[i] in s.lessons && r[i].val.courseId == courseId
    ensures forall j :: 0 <= j < |s.lessons| && s.lessons[j].val.courseId == courseId ==> s.lessons[j] in r
    ensures |r| == LessonCount(s, courseId)
  {
    var found := Where(s.lessons, (x: Row<Lesson>) => InCourse(x, courseId));
    var r := SortByOrder(found);
    SameMembers(r, found);
    r
  }

  /** Stores the lesson a draft describes, when the schema accepts it. */
  function InsertLesson(s: Store, d: LessonDraft): (r: Result<Reply<Row<Lesson>>, Error>)
    ensures r.Failure? <==> NewLesson(d).Failure?
    ensures r.Failure? ==> r.error == NewLesson(d).error
    ensures r.Success? ==> r.value.body == Row(s.nextId, NewLesson(d).value)
    ensures r.Success? ==> r.value.store == s.(lessons := s.lessons + [r.value.body], nextId := s.nextId + 1)
  {
    var l :- NewLesson(d);
    var row := Row(s.nextId, l);
    Success(Reply(s.(lessons := s.lessons + [row], nextId := s.nextId + 1), row))
  }

  /** `createLesson` as written: the handler passes `courseId`, `title`,
      `content` and `sequenceOrder` on, but not the `instructor` the lesson
      schema requires, so validation refuses every request. */
  function CreateLessonAsWritten(s: Store, courseId: Option<Id>, title: string, content: string, sequenceOrder: Option<int>)
    : (r: Result<Reply<Row<Lesson>>, Error>)
    ensures r.Failure? && r.error.ValidationFailed? && "instructor" in r.error.paths
    ensures Status(r.error) == 500
  {
    InsertLesson(s, LessonDraft(courseId, None, title, content, sequenceOrder))
  }

  /** Even a request carrying every field the lesson needs is refused. */
  lemma CompleteRequestRefused(s: Store, courseId: Id, title: string, content: string, sequenceOrder: int)
    requires title != "" && content != ""
    ensures CreateLessonAsWritten(s, Some(courseId), title, content, Some(sequenceOrder)) == Failure(ValidationFailed({"instructor"}))
  {
    var d := LessonDraft(Some(courseId), None, title, content, Some(sequenceOrder));
    assert NewLesson(d) == Failure(ValidationFailed({"instructor"}));
  }

  /** `createLesson` with the calling instructor recorded as the lesson's
      `instructor`: creates the lesson when the request carries the four
      required fields. Enrollments and their progress are not touched. */
  function CreateLesson(s: Store, me: Id, courseId: Option<Id>, title: string, content: string, sequenceOrder: Option<int>)
    : (r: Result<Reply<Row<Lesson>>, Error>)
    ensures r.Success? <==> courseId.Some? && title != "" && content != "" && sequenceOrder.Some?
    ensures r.Failure? ==> r.error.ValidationFailed? && Status(r.error) == 500
    ensures r.Success? ==> r.value.body == Row(s.nextId, Lesson(courseId.value, me, title, content, sequenceOrder.value))
    ensures r.Success? ==> r.value.store == s.(lessons := s.lessons + [r.value.body], nextId := s.nextId + 1)
  {
    InsertLesson(s, LessonDraft(courseId, Some(me), title, content, sequenceOrder))
  }

  /** `updateLesson`: 404 for a missing lesson; otherwise `patch`, the record
      after merging the request body, replaces it. Who asks plays no part. */
  function UpdateLesson(s: Store, id: Id, patch: Lesson): (r: Result<Reply<Row<Lesson>>, Error>)
    ensures r.Failure? <==> forall j :: 0 <= j < |s.lessons| ==> s.lessons[j].id != id
    ensures r.Failure? ==> r.error == LessonNotFound
    ensures r.Success? ==> r.value.body == Row(id, patch) && r.value.body in r.value.store.lessons
    ensures r.Success? ==> r.value.store == s.(lessons := r.value.store.lessons)
    ensures r.Success? ==> |r.value.store.lessons| == |s.lessons|
    ensures r.Success? ==> forall j :: 0 <= j < |s.lessons| && s.lessons[j].id != id ==> r.value.store.lessons[j] == s.lessons[j]
  {
    match IndexOf(s.lessons, id)
    case None => Failure(LessonNotFound)
    case Some(i) => Success(Reply(s.(lessons := Put(s.lessons, i, patch)), Row(id, patch)))
  }

  /** `deleteLesson`: 404 for a missing lesson; otherwise that lesson goes and
      nothing else changes (enrollment progress included). */
  function DeleteLesson(s: Store, id: Id): (r: Result<Store, Error>)
    ensures r.Failure? <==> forall j :: 0 <= j < |s.lessons| ==> s.lessons[j].id != id
    ensures r.Failure? ==> r.error == LessonNotFound
    ensures r.Success? ==> r.value == s.(lessons := r.value.lessons)
    ensures r.Success? ==> |r.value.lessons| == |s.lessons| - 1
    ensures r.Success? ==> forall x :: x in r.value.lessons ==> x in s.lessons
    ensures r.Success? ==>
      exists i :: 0 <= i < |s.lessons| && s.lessons[i].id == id
        && (forall j :: 0 <= j < i ==> s.lessons[j].id != id)
        && r.value.lessons == s.lessons[..i] + s.lessons[i + 1..]
  {
    match IndexOf(s.lessons, id)
    case None => Failure(LessonNotFound)
    case Some(i) => Success(s.(lessons := Drop(s.lessons, i)))
  }

  /** With unique lesson ids, a deletion leaves exactly the other lessons. */
  lemma DeleteLessonRemovesIt(s: Store, id: Id)
    requires UniqueIds(s.lessons)
    ensures var r := DeleteLesson(s, id);
      r.Success? ==> forall x :: x in r.value.lessons <==> x in s.lessons && x.id != id
  {
    if DeleteLesson(s, id).Success? {
      DropRemovesId(s.lessons, IndexOf(s.lessons, id).value);
    }
  }

  /** `(done / total) * 100`; a zero lesson count gives JavaScript's Infinity. */
  function ProgressOf(done: nat, total: nat): (p: Progress)
    ensures p.Infinite? <==> total == 0
    ensures p.Percent? ==> p.value * total as real == 100.0 * done as real
    ensures p.Percent? ==> p.value >= 0.0
  {
    if total == 0 then Infinite else Percent(done as real / total as real * 100.0)
  }

  /** `completeLesson`: 404 without an enrollment of the caller in the course;
      a lesson already completed leaves everything as it is; otherwise the
      lesson id is appended and the progress is recomputed against the
      course's current lesson count. The lesson id is not checked against
      the course. */
  function CompleteLesson(s: Store, me: Id, lessonId: Id, courseId: Id): (r: Result<Reply<Row<Enrollment>>, Error>)
    ensures FindEnrollment(s, me, courseId).None? <==> r.Failure?
    ensures r.Failure? ==> r.error == EnrollmentNotFound
    ensures r.Success? ==> var i := FindEnrollment(s, me, courseId).value;
      var e := s.enrollments[i];
      && (lessonId in e.val.completedLessons ==> r.value == Reply(s, e))
      && (lessonId !in e.val.completedLessons ==>
            && r.value.body.id == e.id
            && r.value.body.val == e.val.(completedLessons := e.val.completedLessons + [lessonId],
                                          progress := r.value.body.val.progress)
            && r.value.store == s.(enrollments := Put(s.enrollments, i, r.value.body.val)))
    ensures r.Success? ==> lessonId in r.value.body.val.completedLessons
    ensures r.Success? ==> var p := r.value.body.val.progress; var done := |r.value.body.val.completedLessons|;
      var e := s.enrollments[FindEnrollment(s, me, courseId).value];
      lessonId !in e.val.completedLessons ==>
        && (p.Infinite? <==> LessonCount(s, courseId) == 0)
        && (p.Percent? ==> p.value * LessonCount(s, courseId) as real == 100.0 * done as real)
  {
    match FindEnrollment(s, me, courseId)
    case None => Failure(EnrollmentNotFound)
    case Some(i) =>
      var e := s.enrollments[i];
      if lessonId in e.val.completedLessons then Success(Reply(s, e))
      else
        var done := e.val.completedLessons + [lessonId];
        var v := e.val.(completedLessons := done, progress := ProgressOf(|done|, LessonCount(s, courseId)));
        Success(Reply(s.(enrollments := Put(s.enrollments, i, v)), Row(e.id, v)))
  }

  /** Completing the same lesson a second time changes nothing and answers
      with the enrollment the first call left. */
  lemma CompleteTwice(s: Store, me: Id, lessonId: Id, courseId: Id)
    requires CompleteLesson(s, me, lessonId, courseId).Success?
    ensures var first := CompleteLesson(s, me, lessonId, courseId).value;
      CompleteLesson(first.store, me, lessonId, courseId) == Success(first)
  {
    var first := CompleteLesson(s, me, lessonId, courseId).value;
    var i := FindEnrollment(s, me, courseId).value;
    if lessonId !in s.enrollments[i].val.completedLessons {
      FirstWhereAfterPut(s.enrollments, i, first.body.val, (x: Row<Enrollment>) => EnrolledIn(x, me, courseId));
    }
  }

  /** A completion never records a lesson twice in an enrollment. */
  lemma CompleteKeepsNoRepeats(s: Store, me: Id, lessonId: Id, courseId: Id)
    requires forall j :: 0 <= j < |s.enrollments| ==> Distinct(s.enrollments[j].val.completedLessons)
    requires CompleteLesson(s, me, lessonId, courseId).Success?
    ensures var t := CompleteLesson(s, me, lessonId, courseId).value.store.enrollments;
      forall j :: 0 <= j < |t| ==> Distinct(t[j].val.completedLessons)
  {
    var i := FindEnrollment(s, me, courseId).value;
    var xs := s.enrollments[i].val.completedLessons;
    if lessonId !in xs {
      assert Distinct(xs + [lessonId]) by {
        forall a, b | 0 <= a < b < |xs| + 1
          ensures (xs + [lessonId])[a] != (xs + [lessonId])[b]
        {
          if b == |xs| {
            assert (xs + [lessonId])[a] == xs[a];
          }
        }
      }
    }
  }

  /** Deleting a lesson of a course lowers the course's lesson count by one
      and touches no enrollment. */
  lemma DeleteLowersCount(t: Store, gone: Id, courseId: Id)
    requires IndexOf(t.lessons, gone).Some? && t.lessons[IndexOf(t.lessons, gone).value].val.courseId == courseId
    ensures var removed := DeleteLesson(t, gone);
      && removed.Success?
      && removed.value.enrollments == t.enrollments
      && LessonCount(removed.value, courseId) + 1 == LessonCount(t, courseId)
  {
    var i := IndexOf(t.lessons, gone).value;
    var p := (x: Row<Lesson>) => InCourse(x, courseId);
    WhereDrop(t.lessons, i, p);
  }

  /** Progress is not refreshed when the course's lesson count changes
      afterwards: deleting one of its lessons lowers the count but leaves
      the enrollment with the value computed against the old count. */
  lemma StaleProgress(s: Store, me: Id, lessonId: Id, courseId: Id, gone: Id)
    requires CompleteLesson(s, me, lessonId, courseId).Success?
    requires IndexOf(s.lessons, gone).Some? && s.lessons[IndexOf(s.lessons, gone).value].val.courseId == courseId
    ensures var done := CompleteLesson(s, me, lessonId, courseId).value;
      var removed := DeleteLesson(done.store, gone);
      && removed.Success?
      && removed.value.enrollments == done.store.enrollments
      && LessonCount(removed.value, courseId) + 1 == LessonCount(done.store, courseId)
  {
    var done := CompleteLesson(s, me, lessonId, courseId).value;
    assert done.store.lessons == s.lessons;
    DeleteLowersCount(done.store, gone, courseId);
  }

  /** Completed lesson ids are not checked against the course, so progress
      can pass 100: a course with one lesson and a student who completes two
      ids reaches 200. */
  lemma ProgressCanExceedHundred()
    ensures var s := EmptyStore.(
        lessons := [Row(1, Lesson(0, 9, "t", "c", 1))],
        enrollments := [Row(2, Enrollment(5, 0, 9, [1], Percent(100.0)))],
        nextId := 3);
      var r := CompleteLesson(s, 5, 7, 0);
      r.Success? && r.value.body.val.progress == Percent(200.0)
  {
    var s := EmptyStore.(
        lessons := [Row(1, Lesson(0, 9, "t", "c", 1))],
        enrollments := [Row(2, Enrollment(5, 0, 9, [1], Percent(100.0)))],
        nextId := 3);
    assert LessonCount(s, 0) == 1 by {
      WhereSnoc([], s.lessons[0], (x: Row<Lesson>) => InCourse(x, 0));
      assert [] + [s.lessons[0]] == s.lessons;
    }
  }
}
