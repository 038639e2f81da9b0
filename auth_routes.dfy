/** The public account routes: self-registration, which always creates a
    student, and login, which looks the account up by email. As written, login
    does not compare the password: any password opens an existing account. */
module AuthRoutes {
  import opened Domain
  import opened Middleware
  import opened Database

  /** JWT signing with the server's secret and the 7-day expiry. */
  type Signer = Claims -> string

  /** The body of `POST /auth/register`. A role the client sends is ignored. */
  datatype RegisterBody = RegisterBody(name: string, email: string, password: string, role: Option<Role>)

  /** The answer of register and login: the account and a token for it. */
  datatype Session = Session(id: UserId, name: string, email: string, role: Role, token: string)

  /** The session for a stored account: the response names the account, and
      the token's payload carries the same id and role as the response. */
  function SessionOf(id: UserId, u: User, sign: Signer): (s: Session)
    ensures s.id == id && s.name == u.name && s.email == u.email && s.role == u.role
    ensures s.token == sign(Claims(s.id, s.role))
  {
    Session(id, u.name, u.email, u.role, sign(Claims(id, u.role)))
  }

  // ------------------------------------------------------- POST /auth/register

  /** POST /auth/register: 409 for an email already in use; otherwise a new
      STUDENT account, whatever role the body names, and a token for it. The
      password is stored as `hash(body.password)`. */
  method Register(db: Store, body: RegisterBody, hash: Hasher, sign: Signer, now: int)
    returns (status: Status, session: Option<Session>)
    requires db.Valid()
    modifies db
    ensures db.Valid() && db.notices == old(db.notices)
    ensures AdminCount(db.users) == AdminCount(old(db.users))
    ensures status == Conflict <==> EmailTaken(old(db.users), body.email)
    ensures status == Conflict || status == Created
    ensures status == Conflict ==> db.users == old(db.users) && session == None
    ensures status == Created ==>
      && session.Some? && session.value.id !in old(db.users)
      && db.users == old(db.users)[session.value.id := User(body.name, body.email, hash(body.password), STUDENT, now)]
      && session.value == Session(session.value.id, body.name, body.email, STUDENT, sign(Claims(session.value.id, STUDENT)))
  {
    var role := STUDENT;
    if EmailTaken(db.users, body.email) {
      return Conflict, None;
    }
    var user := User(body.name, body.email, hash(body.password), role, now);
    var id := db.InsertUser(user);
    AdminCountInsert(old(db.users), id, user);
    var token := sign(Claims(id, role));
    status, session := Created, Some(Session(id, user.name, user.email, role, token));
  }

  // ---------------------------------------------------------- POST /auth/login

  /** `prisma.user.findUnique({ where: { email } })`. */
  function UserWithEmail(users: Users, email: string): (r: Option<UserId>)
    requires EmailsUnique(users)
    ensures r.Some? <==> EmailTaken(users, email)
    ensures r.Some? ==> r.value in users && users[r.value].email == email
  {
    if EmailTaken(users, email) then
      var id :| id in users && users[id].email == email;
      Some(id)
    else
      None
  }

  /** POST /auth/login: 401 for an unknown email; otherwise the stored account
      and a token carrying its id and role. The password plays no part. */
  function Login(users: Users, email: string, password: string, sign: Signer): (r: Response<Session>)
    requires EmailsUnique(users)
    ensures r.status == Ok <==> EmailTaken(users, email)
    ensures r.status != Ok ==> r == Response(Unauthorized, None)
    ensures r.status == Ok ==>
      && r.body.Some? && r.body.value.id in users && users[r.body.value.id].email == email
      && r.body.value == SessionOf(r.body.value.id, users[r.body.value.id], sign)
  {
    match UserWithEmail(users, email)
    case None => Response(Unauthorized, None)
    case Some(id) => Response(Ok, Some(SessionOf(id, users[id], sign)))
  }

  /** Once registration has added account `id`, logging in with its email and
      any password returns the session of that account. */
  lemma RegisteredUserLogsIn(users: Users, id: UserId, u: User, password: string, sign: Signer)
    requires EmailsUnique(users) && id !in users && !EmailTaken(users, u.email)
    ensures EmailsUnique(users[id := u])
    ensures Login(users[id := u], u.email, password, sign) == Response(Ok, Some(SessionOf(id, u, sign)))
  {
    var after := users[id := u];
    assert after[id].email == u.email;
    assert UserWithEmail(after, u.email).Some?;
  }

  /** The token a login hands out, sent back as "<scheme> <token>", authenticates
      as the stored account with its stored role, given that verification
      accepts what signing produces and that tokens contain no spaces. */
  lemma SessionTokenAuthenticates(users: Users, email: string, password: string, sign: Signer, verify: Verifier, scheme: string)
    requires EmailsUnique(users) && EmailTaken(users, email)
    requires forall c :: verify(sign(c)) == Some(c)
    requires forall c :: sign(c) != "" && ' ' !in sign(c)
    requires ' ' !in scheme
    ensures Login(users, email, password, sign).body.Some?
    ensures var s := Login(users, email, password, sign).body.value;
      s.id in users && Authenticate(Some(scheme + " " + s.token), verify) == Admitted(Claims(s.id, users[s.id].role))
  {
    var s := Login(users, email, password, sign).body.value;
    var c := Claims(s.id, users[s.id].role);
    assert s.token == sign(c);
    TokenOfScheme(scheme, s.token);
  }
}
