/** User signup (`src/server/api/auth.ts`): four required fields, one user
    per email, the password stored only as its hash, and a response that
    leaves the password out. */
module Auth {
  import opened Model
  import opened Tables
  import opened Db

  /** The signup body; None stands for a field that is absent or null. */
  datatype SignupRequest = SignupRequest(name: Option<string>, email: Option<string>, password: Option<string>, role: Option<string>)

  /** The `user` object of the response: id, email and role. There is no
      field for the password, hashed or not. */
  datatype UserView = UserView(id: Id, email: string, role: string)

  predicate HasFields(req: SignupRequest)
  {
    Truthy(req.name) && Truthy(req.email) && Truthy(req.password) && Truthy(req.role)
  }

  /** The two checks, in their order: required fields, then a free email. */
  function CheckSignup(users: seq<User>, req: SignupRequest): (v: Verdict)
    ensures !HasFields(req) <==> v == Reject(MissingFields)
    ensures v == Reject(EmailTaken) <==> HasFields(req) && exists u :: u in users && u.email == req.email.value
    ensures v == Accept <==> HasFields(req) && forall u :: u in users ==> u.email != req.email.value
  {
    if !HasFields(req) then Reject(MissingFields)
    else if UserByEmail(users, req.email.value).Some? then Reject(EmailTaken)
    else Accept
  }

  /** POST signup. `hash` stands for bcrypt's `hash(password, 10)`. A
      rejection writes nothing; an acceptance adds exactly one user, whose
      password column holds the hash, and the email then finds that user. */
  method Signup(db: Store, req: SignupRequest, hash: string -> string) returns (r: Result<UserView>)
    requires db.Valid()
    modifies db`users, db`nextKey
    ensures db.Valid()
    ensures r.Err? <==> CheckSignup(old(db.users), req).Reject?
    ensures r.Err? ==> CheckSignup(old(db.users), req) == Reject(r.error) && db.users == old(db.users)
    ensures r.Ok? ==>
      && |db.users| == |old(db.users)| + 1
      && db.users[..|old(db.users)|] == old(db.users)
      && var row := db.users[|old(db.users)|];
         && row == User(r.value.id, req.name.value, req.email.value, hash(req.password.value), req.role.value)
         && r.value == UserView(row.id, row.email, row.role)
         && (forall u :: u in old(db.users) ==> u.id != row.id)
         && UserByEmail(db.users, req.email.value) == Some(row)
  {
    var verdict := CheckSignup(db.users, req);
    if verdict.Reject? {
      return Err(verdict.error);
    }
    var hashedPassword := hash(req.password.value);
    var row := db.InsertUser(User("", req.name.value, req.email.value, hashedPassword, req.role.value));
    UserByEmailUnique(db.users, |db.users| - 1);
    assert db.users[..|old(db.users)|] == old(db.users);
    r := Ok(UserView(row.id, row.email, row.role));
  }

  /** With the email taken, a second signup is refused whatever its other
      fields. */
  lemma SecondSignupRefused(users: seq<User>, k: nat, req: SignupRequest)
    requires k < |users|
    requires HasFields(req) && req.email.value == users[k].email
    ensures CheckSignup(users, req) == Reject(EmailTaken)
  {
    assert users[k] in users;
  }
}
