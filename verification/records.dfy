/** The stored records and the schema rules applied when one is created:
    required paths (a required string path rejects the empty string),
    the role enumeration and the defaults. */
module Records {
  import opened Results
  import opened Tables
  import opened Roles
  import opened Errors

  /** backend/models/User.js */
  datatype User = User(name: string, email: string, password: string, role: Role, profileImage: string)

  /** `comparePassword`: plain equality with the stored password. */
  predicate ComparePassword(u: User, candidate: string) {
    u.password == candidate
  }

  /** The stored password is accepted and no other candidate is; without
      hashing, the verdict depends on the stored text alone. */
  lemma PasswordCheck(u: User, candidate: string)
    ensures ComparePassword(u, u.password)
    ensures ComparePassword(u, candidate) ==> candidate == u.password
    ensures forall v: User :: v.password == u.password ==> (ComparePassword(v, candidate) <==> ComparePassword(u, candidate))
  {
  }

  /** Creates a user record from the registration fields; `role` is the raw
      string of the request, absent when not supplied. */
  function NewUser(name: string, email: string, password: string, role: Option<string>): (r: Result<User, Error>)
    ensures r.Success? <==> name != "" && email != "" && password != "" && (role.None? || ParseRole(role.value).Some?)
    ensures r.Success? ==> r.value.name == name && r.value.email == email && r.value.password == password
    ensures r.Success? && role.None? ==> r.value.role == Student
    ensures r.Success? && role.Some? ==> RoleName(r.value.role) == role.value
    ensures r.Success? ==> r.value.profileImage == ""
    ensures r.Failure? ==> r.error.ValidationFailed? && Status(r.error) == 500
    ensures r.Failure? && email == "" ==> "email" in r.error.paths
  {
    var bad := (if name == "" then {"name"} else {})
      + (if email == "" then {"email"} else {})
      + (if password == "" then {"password"} else {})
      + (if role.Some? && ParseRole(role.value).None? then {"role"} else {});
    if bad != {} then Failure(ValidationFailed(bad))
    else Success(User(name, email, password, if role.Some? then ParseRole(role.value).value else Student, ""))
  }

  /** One entry of a course's section table: an instructor and its label. */
  datatype Section = Section(instructor: Id, section: string)

  /** backend/models/Course.js */
  datatype Course = Course(
    title: string,
    description: string,
    code: string,
    instructorLimit: int,
    instructors: seq<Id>,
    instructorSections: seq<Section>,
    students: seq<Id>)

  /** Creates a course record with empty rosters. */
  function NewCourse(title: string, description: string, code: string, limit: int): (r: Result<Course, Error>)
    ensures r.Success? <==> title != "" && description != "" && code != ""
    ensures r.Success? ==> r.value.title == title && r.value.description == description
    ensures r.Success? ==> r.value.code == code && r.value.instructorLimit == limit
    ensures r.Success? ==> r.value.instructors == [] && r.value.instructorSections == [] && r.value.students == []
    ensures r.Failure? ==> r.error.ValidationFailed? && Status(r.error) == 500
  {
    var bad := (if title == "" then {"title"} else {})
      + (if description == "" then {"description"} else {})
      + (if code == "" then {"code"} else {});
    if bad != {} then Failure(ValidationFailed(bad))
    else Success(Course(title, description, code, limit, [], [], []))
  }

  /** backend/models/Lesson.js */
  datatype Lesson = Lesson(courseId: Id, instructor: Id, title: string, content: string, sequenceOrder: int)

  /** The fields a create request supplies for a lesson, any of them absent. */
  datatype LessonDraft = LessonDraft(
    courseId: Option<Id>,
    instructor: Option<Id>,
    title: string,
    content: string,
    sequenceOrder: Option<int>)

  /** Creates a lesson record: all five paths are required. */
  function NewLesson(d: LessonDraft): (r: Result<Lesson, Error>)
    ensures r.Success? <==> d.courseId.Some? && d.instructor.Some? && d.title != "" && d.content != "" && d.sequenceOrder.Some?
    ensures r.Success? ==> r.value.courseId == d.courseId.value && r.value.instructor == d.instructor.value
    ensures r.Success? ==> r.value.title == d.title && r.value.content == d.content
    ensures r.Success? ==> r.value.sequenceOrder == d.sequenceOrder.value
    ensures r.Failure? ==> r.error.ValidationFailed? && Status(r.error) == 500
    ensures d.instructor.None? ==> r.Failure? && "instructor" in r.error.paths
  {
    var bad := (if d.courseId.None? then {"courseId"} else {})
      + (if d.instructor.None? then {"instructor"} else {})
      + (if d.title == "" then {"title"} else {})
      + (if d.content == "" then {"content"} else {})
      + (if d.sequenceOrder.None? then {"sequenceOrder"} else {});
    if bad != {} then Failure(ValidationFailed(bad))
    else Success(Lesson(d.courseId.value, d.instructor.value, d.title, d.content, d.sequenceOrder.value))
  }

  /** An assignment as the create handler records it (its schema file is not
      part of this model, so no validation is applied). */
  datatype Assignment = Assignment(courseId: Id, title: string, description: string, dueDate: string, createdBy: Id)

  /** A submission as the submit handler records it. */
  datatype Submission = Submission(assignmentId: Id, studentId: Id, content: string)

  /** A progress percentage; `Infinite` is the value JavaScript stores when a
      completion is divided by a lesson count of zero. */
  datatype Progress = Percent(value: real) | Infinite

  /** backend/models/Enrollment.js */
  datatype Enrollment = Enrollment(
    studentId: Id,
    courseId: Id,
    instructorId: Id,
    completedLessons: seq<Id>,
    progress: Progress)

  /** A fresh enrollment: the three ids as given, nothing completed, progress 0. */
  function NewEnrollment(student: Id, course: Id, instructor: Id): (e: Enrollment)
    ensures e.studentId == student && e.courseId == course && e.instructorId == instructor
    ensures e.completedLessons == []
    ensures e.progress == Percent(0.0)
  {
    Enrollment(student, course, instructor, [], Percent(0.0))
  }
}
