/** backend/middleware/auth.js: `protect` resolves the caller from the
    `x-user-id` header; `authorize` checks the caller's role. */
module Middleware {
  import opened Results
  import opened Digits
  import opened Tables
  import opened Roles
  import opened Errors
  import opened Records
  import opened Db

  /** A user record without its password: what `protect` binds as the caller
      and what every user-facing response carries. */
  datatype Profile = Profile(id: Id, name: string, email: string, role: Role, profileImage: string)

  function ProfileOf(row: Row<User>): Profile {
    Profile(row.id, row.val.name, row.val.email, row.val.role, row.val.profileImage)
  }

  /** `select('-password')` drops the password and nothing else: the profile
      does not depend on it, and with it restores the stored row. */
  lemma ProfileDropsOnlyPassword(row: Row<User>, password: string)
    ensures ProfileOf(Row(row.id, row.val.(password := password))) == ProfileOf(row)
    ensures var p := ProfileOf(row);
      Row(p.id, User(p.name, p.email, row.val.password, p.role, p.profileImage)) == row
  {
  }

  /** The identifier text of the header, cast to an id; a cast that fails
      throws, which `protect`'s catch block turns into a 401. */
  function CastId(text: string): Option<Id> {
    ParseNat(text)
  }

  function Protect(s: Store, header: Option<string>): (r: Result<Profile, Error>)
    ensures r.Failure? ==> Status(r.error) == 401
    ensures header.None? || header == Some("") ==> r == Failure(NoUserId)
    ensures header.Some? && header.value != "" && CastId(header.value).None? ==> r == Failure(BadCredential)
    ensures header.Some? && CastId(header.value).Some? && IndexOf(s.users, CastId(header.value).value).None? ==>
      r == Failure(UnknownUser)
    ensures r.Success? <==> header.Some? && CastId(header.value).Some? && IndexOf(s.users, CastId(header.value).value).Some?
    ensures r.Success? ==> exists i :: 0 <= i < |s.users| && s.users[i].id == CastId(header.value).value && r.value == ProfileOf(s.users[i])
    ensures r.Success? ==> r.value.id == CastId(header.value).value
  {
    if header.None? || header.value == "" then Failure(NoUserId)
    else match CastId(header.value)
      case None => Failure(BadCredential)
      case Some(id) =>
        match IndexOf(s.users, id)
        case None => Failure(UnknownUser)
        case Some(i) => Success(ProfileOf(s.users[i]))
  }

  /** A caller who sends the decimal text of a stored user's id is bound to
      that user's record, password removed. */
  lemma ProtectResolves(s: Store, i: nat)
    requires i < |s.users|
    requires IndexOf(s.users, s.users[i].id) == Some(i)
    ensures Protect(s, Some(NatToString(s.users[i].id))) == Success(ProfileOf(s.users[i]))
  {
    ParseNatRoundTrip(s.users[i].id);
  }

  function Authorize(roles: set<Role>, caller: Profile): (r: Result<Profile, Error>)
    ensures r.Success? <==> caller.role in roles
    ensures r.Success? ==> r.value == caller
    ensures r.Failure? ==> r.error == Forbidden(caller.role) && Status(r.error) == 403
  {
    if caller.role in roles then Success(caller) else Failure(Forbidden(caller.role))
  }
}
