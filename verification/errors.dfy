/** The error responses the handlers send, each with its HTTP status. */
module Errors {
  import opened Roles

  datatype Error =
    | Unauthorized(message: string)       // 401, from the identity check
    | Forbidden(role: Role)               // 403, "User role <role> is not authorized"
    | NotFound(message: string)           // 404
    | Rejected(message: string)           // 400, a domain conflict
    | ValidationFailed(paths: set<string>) // 500, schema validation on create
    | DuplicateKey(path: string)          // 500, a unique index refusing a write

  function Status(e: Error): nat {
    match e
    case Unauthorized(_) => 401
    case Forbidden(_) => 403
    case NotFound(_) => 404
    case Rejected(_) => 400
    case ValidationFailed(_) => 500
    case DuplicateKey(_) => 500
  }

  const NoUserId := Unauthorized("Not authorized, no user ID")
  const UnknownUser := Unauthorized("User not found")
  const BadCredential := Unauthorized("Not authorized")
  const InvalidPassword := Unauthorized("Invalid password")

  const CourseNotFound := NotFound("Course not found")
  const LessonNotFound := NotFound("Lesson not found")
  const AssignmentNotFound := NotFound("Assignment not found")
  const EnrollmentNotFound := NotFound("Enrollment not found")
  const UserNotFound := NotFound("User not found")

  const CodeTaken := Rejected("Course code already exists")
  const AlreadyTeaching := Rejected("Already teaching this course")
  const CapacityReached := Rejected("Capacity Reached")
  const NoInstructorChosen := Rejected("Please select an instructor")
  const InstructorNotTeaching := Rejected("Invalid instructor for this course")
  const AlreadyEnrolled := Rejected("Already enrolled with this instructor")
  const AlreadySubmitted := Rejected("Assignment already submitted")
  const EmailTaken := Rejected("User already exists")
}
