/** Registration and login. Password hashing and comparison (bcrypt) are
    not modelled: registration receives the hash, and login receives the
    comparison as a predicate `matches(plain, hash)`. */
module AuthController {
  import opened Wrappers
  import opened Table
  import opened Schema
  import opened Http

  /** The fields of a registration or admin-creation body; absent is `None`. */
  datatype AccountBody = AccountBody(name: Option<string>, email: Option<string>, password: Option<string>,
                                     collegeId: Option<nat>)

  /** `!name || !email || !password || !college_id`. */
  predicate MissingField(b: AccountBody) {
    !Given(b.name) || !Given(b.email) || !Given(b.password) || !Truthy(b.collegeId)
  }

  /** `WHERE email = ? AND college_id = ?`. */
  function EmailAt(email: string, college: Option<nat>): Row<User> -> bool {
    (u: Row<User>) => u.rec.email == email && SqlEq(u.rec.collegeId, college)
  }

  /** `registerUser`: every field is required, the (email, college) pair
      must be new, and the new account is a pending student. */
  method RegisterUser(db: Database, body: AccountBody, hashedPassword: string) returns (r: Reply)
    requires db.Valid()
    modifies db`users, db`nextUserId
    ensures db.Valid()
    ensures MissingField(body) ==> r == BadRequest
    ensures !MissingField(body) && Count(old(db.users), EmailAt(body.email.value, body.collegeId)) > 0 ==> r == BadRequest
    ensures !MissingField(body) && Count(old(db.users), EmailAt(body.email.value, body.collegeId)) == 0 ==> r == Registered
    ensures r == BadRequest ==> db.users == old(db.users) && db.nextUserId == old(db.nextUserId)
    ensures r != BadRequest ==>
      && r == Registered
      && db.users == Insert(old(db.users), old(db.nextUserId),
           User(body.name.value, body.email.value, hashedPassword, Student, Pending, body.collegeId, None))
      && db.nextUserId == old(db.nextUserId) + 1
  {
    if MissingField(body) {
      return BadRequest;
    }
    if Count(db.users, EmailAt(body.email.value, body.collegeId)) > 0 {
      return BadRequest;
    }
    var u := User(body.name.value, body.email.value, hashedPassword, Student, Pending, body.collegeId, None);
    InsertAscending(db.users, db.nextUserId, u);
    db.users := Insert(db.users, db.nextUserId, u);
    db.nextUserId := db.nextUserId + 1;
    r := Registered;
  }

  /** A second registration with the same email at the same college is refused. */
  lemma RegisterTwiceRefused(users: seq<Row<User>>, next: nat, body: AccountBody, hashedPassword: string)
    requires !MissingField(body)
    ensures var u := User(body.name.value, body.email.value, hashedPassword, Student, Pending, body.collegeId, None);
      Count(Insert(users, next, u), EmailAt(body.email.value, body.collegeId)) > 0
  {
    var u := User(body.name.value, body.email.value, hashedPassword, Student, Pending, body.collegeId, None);
    assert Insert(users, next, u)[|users|] == Row(next, u);
  }

  /** The JWT payload. */
  datatype TokenPayload = TokenPayload(id: nat, name: string, role: Role)

  /** `generateToken`: the payload carries the id, the name and the role. */
  function GenerateToken(u: Row<User>): (p: TokenPayload)
    ensures p.id == u.id && p.name == u.rec.name && p.role == u.rec.role
  {
    TokenPayload(u.id, u.rec.name, u.rec.role)
  }

  /** The token says nothing about the college, the email, the status or
      the password: users who differ only in those get the same token. */
  lemma TokenIgnoresCollege(u: Row<User>, v: Row<User>)
    requires u.id == v.id && u.rec.name == v.rec.name && u.rec.role == v.rec.role
    ensures GenerateToken(u) == GenerateToken(v)
  {
  }

  datatype LoginOutcome =
    | LoginBadRequest     // 400 "Please select a college."
    | Unauthorized        // 401
    | PendingApproval     // 403
    | LoggedIn(id: nat, name: string, email: string, role: Role, token: TokenPayload)

  /** `WHERE email = ? AND role = 'master'`. */
  function MasterWith(email: string): Row<User> -> bool {
    (u: Row<User>) => u.rec.email == email && u.rec.role == Master
  }

  /** The account `loginUser` checks the password against: the first master
      with that email, or else, when a college was chosen, the first account
      with that email at that college. */
  function LoginCandidate(users: seq<Row<User>>, email: string, college: Option<nat>): (r: Option<Row<User>>)
    ensures r.Some? ==> r.value in users && r.value.rec.email == email
    ensures Count(users, MasterWith(email)) > 0 ==> r.Some? && r.value.rec.role == Master
    ensures Count(users, MasterWith(email)) == 0 ==>
      (r.Some? <==> Truthy(college) && Count(users, EmailAt(email, college)) > 0)
    ensures r.Some? && r.value.rec.role != Master ==> SqlEq(r.value.rec.collegeId, college)
  {
    var master := Find(users, MasterWith(email));
    if master.Some? then master
    else if !Truthy(college) then None
    else Find(users, EmailAt(email, college))
  }

  /** A student whose account is not approved. */
  predicate Unapproved(u: Row<User>) {
    u.rec.role == Student && u.rec.status != Approved
  }

  /** `loginUser`: master lookup first, then the college is required, then
      the account must exist, then the password must match, and only then
      is a student who is not approved turned away. */
  function Login(users: seq<Row<User>>, email: string, password: string, college: Option<nat>,
                 matches: (string, string) -> bool): (r: LoginOutcome)
    ensures r == LoginBadRequest <==> Count(users, MasterWith(email)) == 0 && !Truthy(college)
    ensures Count(users, MasterWith(email)) == 0 && Truthy(college) && Count(users, EmailAt(email, college)) == 0
            ==> r == Unauthorized
    ensures r.LoggedIn? ==> exists u :: (u in users && u.rec.email == email
      && matches(password, u.rec.passwordHash)
      && (u.rec.role == Student ==> u.rec.status == Approved)
      && r == LoggedIn(u.id, u.rec.name, u.rec.email, u.rec.role, GenerateToken(u)))
    ensures r == PendingApproval ==> exists u :: (u in users && u.rec.email == email
      && matches(password, u.rec.passwordHash)
      && u.rec.role == Student && u.rec.status != Approved)
    // Past the college check, the outcome is decided by the candidate account alone.
    ensures var c := LoginCandidate(users, email, college);
      r != LoginBadRequest ==>
        && (c.None? ==> r == Unauthorized)
        && (c.Some? && !matches(password, c.value.rec.passwordHash) ==> r == Unauthorized)
        && (c.Some? && matches(password, c.value.rec.passwordHash) && Unapproved(c.value) ==> r == PendingApproval)
        && (c.Some? && matches(password, c.value.rec.passwordHash) && !Unapproved(c.value) ==>
              r == LoggedIn(c.value.id, c.value.rec.name, c.value.rec.email, c.value.rec.role, GenerateToken(c.value)))
  {
    if Count(users, MasterWith(email)) == 0 && !Truthy(college) then LoginBadRequest
    else
      var u := LoginCandidate(users, email, college);
      if u.None? then Unauthorized
      else if !matches(password, u.value.rec.passwordHash) then Unauthorized
      else if Unapproved(u.value) then PendingApproval
      else LoggedIn(u.value.id, u.value.rec.name, u.value.rec.email, u.value.rec.role, GenerateToken(u.value))
  }

  /** A master account is found by email alone: the chosen college does not
      matter. */
  lemma MasterLoginIgnoresCollege(users: seq<Row<User>>, email: string, password: string,
                                  c1: Option<nat>, c2: Option<nat>, matches: (string, string) -> bool)
    requires Count(users, MasterWith(email)) > 0
    ensures Login(users, email, password, c1, matches) == Login(users, email, password, c2, matches)
  {
  }

  /** A wrong password for the account being checked is a 401 whatever that
      account's status: the pending check is never reached. */
  lemma WrongPasswordUnauthorized(users: seq<Row<User>>, email: string, password: string, college: Option<nat>,
                                  matches: (string, string) -> bool)
    requires var c := LoginCandidate(users, email, college);
      c.Some? ==> !matches(password, c.value.rec.passwordHash)
    ensures Login(users, email, password, college, matches) ==
      (if Count(users, MasterWith(email)) == 0 && !Truthy(college) then LoginBadRequest else Unauthorized)
  {
  }

  /** A student who registered and was not yet approved cannot log in. */
  lemma RegisteredStudentPending(users: seq<Row<User>>, next: nat, body: AccountBody, hashedPassword: string,
                                 password: string, matches: (string, string) -> bool)
    requires !MissingField(body) && Count(users, MasterWith(body.email.value)) == 0
    requires Count(users, EmailAt(body.email.value, body.collegeId)) == 0
    requires matches(password, hashedPassword)
    ensures var u := User(body.name.value, body.email.value, hashedPassword, Student, Pending, body.collegeId, None);
      Login(Insert(users, next, u), body.email.value, password, body.collegeId, matches) == PendingApproval
  {
    var u := User(body.name.value, body.email.value, hashedPassword, Student, Pending, body.collegeId, None);
    var t := Insert(users, next, u);
    assert t[|users|] == Row(next, u);
    assert forall i :: 0 <= i < |users| ==> t[i] == users[i];
    var c := LoginCandidate(t, body.email.value, body.collegeId);
    assert c == Some(Row(next, u));
  }
}
