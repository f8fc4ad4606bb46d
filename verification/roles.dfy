/** The user role enumeration of the User record (backend/models/User.js). */
module Roles {
  import opened Results

  datatype Role = Student | Instructor | Admin

  /** The role as the store spells it. */
  function RoleName(r: Role): string {
    match r
    case Student => "student"
    case Instructor => "instructor"
    case Admin => "admin"
  }

  /** The enum check the schema applies to a supplied role string. */
  function ParseRole(s: string): (r: Option<Role>)
    ensures r.Some? ==> RoleName(r.value) == s
    ensures r.None? ==> forall x: Role :: RoleName(x) != s
  {
    if s == "student" then Some(Student)
    else if s == "instructor" then Some(Instructor)
    else if s == "admin" then Some(Admin)
    else None
  }

  /** Every role is accepted back from its own spelling. */
  lemma ParseRoleName(r: Role)
    ensures ParseRole(RoleName(r)) == Some(r)
  {
  }
}
