/** backend/controllers/authController.js: registration, login and the
    caller's own profile. */
module Accounts {
  import opened Results
  import opened Tables
  import opened Roles
  import opened Errors
  import opened Records
  import opened Db
  import opened Middleware

  /** The body `register` answers with: id, name, email and role only. */
  datatype Account = Account(id: Id, name: string, email: string, role: Role)

  predicate HasEmail(x: Row<User>, email: string) {
    x.val.email == email
  }

  predicate EmailInUse(users: seq<Row<User>>, email: string) {
    exists j :: 0 <= j < |users| && users[j].val.email == email
  }

  /** `register`: an email already in use is refused before anything is
      created; otherwise the schema checks the fields and the user is stored. */
  function Register(s: Store, name: string, email: string, password: string, role: Option<string>)
    : (r: Result<Reply<Account>, Error>)
    ensures EmailInUse(s.users, email) ==> r == Failure(EmailTaken)
    ensures r.Success? <==> !EmailInUse(s.users, email) && NewUser(name, email, password, role).Success?
    ensures r.Failure? && !EmailInUse(s.users, email) ==> r.error.ValidationFailed?
    ensures r.Success? ==> var u := NewUser(name, email, password, role).value;
      && r.value.store == s.(users := s.users + [Row(s.nextId, u)], nextId := s.nextId + 1)
      && r.value.body == Account(s.nextId, name, email, u.role)
  {
    match FirstWhere(s.users, (x: Row<User>) => HasEmail(x, email))
    case Some(_) => Failure(EmailTaken)
    case None =>
      var u :- NewUser(name, email, password, role);
      Success(Reply(s.(users := s.users + [Row(s.nextId, u)], nextId := s.nextId + 1),
                    Account(s.nextId, u.name, u.email, u.role)))
  }

  /** `User.findOne({ email })`: the index of the first user with the email. */
  function FindByEmail(users: seq<Row<User>>, email: string): (r: Option<nat>)
    ensures r.Some? ==> r.value < |users| && HasEmail(users[r.value], email)
    ensures r.Some? ==> forall j :: 0 <= j < r.value ==> !HasEmail(users[j], email)
    ensures r.None? <==> !EmailInUse(users, email)
  {
    FirstWhere(users, (x: Row<User>) => HasEmail(x, email))
  }

  /** `login`: an unknown email and a wrong password are both 401, with
      different messages; a match answers with the profile, which carries
      no password. */
  function Login(s: Store, email: string, password: string): (r: Result<Profile, Error>)
    ensures !EmailInUse(s.users, email) <==> r == Failure(UnknownUser)
    ensures r.Failure? ==> Status(r.error) == 401
    ensures r.Success? ==>
      exists j :: 0 <= j < |s.users| && HasEmail(s.users[j], email) && ComparePassword(s.users[j].val, password) && r.value == ProfileOf(s.users[j])
    ensures (forall j :: 0 <= j < |s.users| && s.users[j].val.email == email ==> !ComparePassword(s.users[j].val, password))
      ==> r.Failure?
    ensures FindByEmail(s.users, email).Some? ==>
      var u := s.users[FindByEmail(s.users, email).value];
      && (r.Success? <==> ComparePassword(u.val, password))
      && (r.Failure? ==> r.error == InvalidPassword)
      && (r.Success? ==> r.value == ProfileOf(u))
  {
    match FindByEmail(s.users, email)
    case None => Failure(UnknownUser)
    case Some(i) =>
      if !ComparePassword(s.users[i].val, password) then Failure(InvalidPassword)
      else Success(ProfileOf(s.users[i]))
  }

  /** A user who just registered can log in with the same email and
      password and is answered with the new record's profile. */
  lemma RegisterThenLogin(s: Store, name: string, email: string, password: string, role: Option<string>)
    requires Register(s, name, email, password, role).Success?
    ensures var r := Register(s, name, email, password, role).value;
      var p := Login(r.store, email, password);
      && p.Success?
      && p.value.id == r.body.id && p.value.name == name && p.value.email == email && p.value.role == r.body.role
  {
    var r := Register(s, name, email, password, role).value;
    var t := r.store.users;
    assert forall j :: 0 <= j < |s.users| ==> t[j] == s.users[j];
    assert t[|s.users|].val.email == email;
  }

  /** Logging in with the right email and a different password is refused
      with "Invalid password", when the email is held by one user. */
  lemma WrongPasswordRefused(s: Store, i: nat, password: string)
    requires i < |s.users|
    requires forall j :: 0 <= j < |s.users| && j != i ==> s.users[j].val.email != s.users[i].val.email
    requires password != s.users[i].val.password
    ensures Login(s, s.users[i].val.email, password) == Failure(InvalidPassword)
  {
  }

  /** `getProfile`: the caller's record without its password; the store
      answers nothing when the record is gone. */
  function GetProfile(s: Store, me: Id): (r: Option<Profile>)
    ensures r.None? <==> forall j :: 0 <= j < |s.users| ==> s.users[j].id != me
    ensures r.Some? ==> exists j :: 0 <= j < |s.users| && s.users[j].id == me && r.value == ProfileOf(s.users[j])
  {
    match IndexOf(s.users, me)
    case None => None
    case Some(i) => Some(ProfileOf(s.users[i]))
  }

  /** `updateProfile`: 404 when the caller's record is gone; the name changes
      only to a non-empty name, the picture only when a file was uploaded
      (`file` is the stored path), email, role and password never. */
  function UpdateProfile(s: Store, me: Id, name: string, file: Option<string>): (r: Result<Reply<Profile>, Error>)
    ensures r.Failure? <==> forall j :: 0 <= j < |s.users| ==> s.users[j].id != me
    ensures r.Failure? ==> r.error == UserNotFound
    ensures r.Success? ==> |r.value.store.users| == |s.users|
    ensures r.Success? ==> var i := IndexOf(s.users, me).value;
      var before := s.users[i].val;
      var after := r.value.store.users[i].val;
      && r.value.store == s.(users := Put(s.users, i, after))
      && after.email == before.email && after.role == before.role && after.password == before.password
      && after.name == (if name != "" then name else before.name)
      && after.profileImage == (if file.Some? then file.value else before.profileImage)
      && r.value.body == ProfileOf(r.value.store.users[i])
  {
    match IndexOf(s.users, me)
    case None => Failure(UserNotFound)
    case Some(i) =>
      var u := s.users[i].val;
      var u' := u.(name := if name != "" then name else u.name,
                   profileImage := if file.Some? then file.value else u.profileImage);
      var t := Put(s.users, i, u');
      Success(Reply(s.(users := t), ProfileOf(t[i])))
  }
}
