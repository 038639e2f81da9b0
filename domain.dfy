/** Records of the notice board's store, the status codes its handlers answer
    with, and the aggregate queries (email lookup, admin count) the handlers
    run against the user table. */
module Domain {

  datatype Option<+T> = None | Some(value: T)

  /** An HTTP status code. */
  type Status = int

  const Ok: Status := 200
  const Created: Status := 201
  const BadRequest: Status := 400
  const Unauthorized: Status := 401
  const Forbidden: Status := 403
  const NotFound: Status := 404
  const Conflict: Status := 409
  const ServerError: Status := 500

  /** A status code together with the JSON body fields the policy decides. */
  datatype Response<T> = Response(status: Status, body: Option<T>)

  /** Ids are issued by the store; they are never reused. */
  type UserId = nat
  type NoticeId = nat

  datatype Role = ADMIN | TEACHER | STUDENT

  /** A row of the user table. The password is kept only as its bcrypt hash. */
  datatype User = User(name: string, email: string, passwordHash: string, role: Role, createdAt: int)

  /** A row of the notice table; `createdAt` is a timestamp. */
  datatype Notice = Notice(title: string, content: string, important: bool, createdAt: int, authorId: UserId)

  /** bcrypt's `hash(password, salt)` with the salt drawn for this call. */
  type Hasher = string -> string

  /** The payload of a token, which becomes `req.user` once the token verifies. */
  datatype Claims = Claims(userId: UserId, role: Role)

  type Users = map<UserId, User>
  type Notices = map<NoticeId, Notice>

  /** The unique constraint on the email column. */
  predicate EmailsUnique(users: Users)
  {
    forall a, b :: a in users && b in users && users[a].email == users[b].email ==> a == b
  }

  /** The rows `findUnique({ where: { email } })` could return. */
  function UsersWithEmail(users: Users, email: string): set<UserId>
  {
    set id | id in users && users[id].email == email
  }

  /** `findUnique({ where: { email } })` finds a row: exactly when some row holds
      the email, and under the unique constraint exactly one row does. */
  predicate EmailTaken(users: Users, email: string): (taken: bool)
    ensures taken <==> UsersWithEmail(users, email) != {}
    ensures EmailsUnique(users) ==> (taken <==> |UsersWithEmail(users, email)| == 1)
  {
    UniqueEmailsAtMostOne(users);
    RowWithEmail(users, email);
    exists id :: id in users && users[id].email == email
  }

  /** Some row holds the email exactly when the set of such rows is non-empty. */
  lemma RowWithEmail(users: Users, email: string)
    ensures UsersWithEmail(users, email) != {} <==> exists id :: id in users && users[id].email == email
  {
    if UsersWithEmail(users, email) != {} {
      var id :| id in UsersWithEmail(users, email);
      assert id in users && users[id].email == email;
    } else if exists id :: id in users && users[id].email == email {
      var id :| id in users && users[id].email == email;
      assert id in UsersWithEmail(users, email);
    }
  }

  /** Under the unique constraint an email names at most one row. */
  lemma UniqueEmailsAtMostOne(users: Users)
    ensures EmailsUnique(users) ==> forall email :: |UsersWithEmail(users, email)| <= 1
  {
    if EmailsUnique(users) {
      forall email
        ensures |UsersWithEmail(users, email)| <= 1
      {
        var rows := UsersWithEmail(users, email);
        if rows != {} {
          var x :| x in rows;
          assert rows == {x};
        }
      }
    }
  }

  function AdminIds(users: Users): set<UserId>
  {
    set id | id in users && users[id].role == ADMIN
  }

  /** `count({ where: { role: ADMIN } })`: at most the number of rows, and zero
      exactly when no row is an admin. */
  function AdminCount(users: Users): (n: nat)
    ensures n <= |users|
    ensures n == 0 <==> forall id :: id in users ==> users[id].role != ADMIN
  {
    AdminIdsWithin(users);
    assert forall id :: id in users && users[id].role == ADMIN ==> id in AdminIds(users);
    assert (forall id :: id in users ==> users[id].role != ADMIN) ==> AdminIds(users) == {};
    |AdminIds(users)|
  }

  lemma AdminIdsWithin(users: Users)
    ensures |AdminIds(users)| <= |users|
  {
    SubsetCardinality(AdminIds(users), users.Keys);
  }

  lemma {:induction false} SubsetCardinality(a: set<UserId>, b: set<UserId>)
    requires a <= b
    ensures |a| <= |b|
    decreases b
  {
    if a != {} {
      var x :| x in a;
      SubsetCardinality(a - {x}, b - {x});
    }
  }

  /** The foreign key from a notice to its author: every notice names a user row. */
  predicate AuthorsExist(users: Users, notices: Notices)
  {
    forall n :: n in notices ==> notices[n].authorId in users
  }

  /** User `id` is the author of some notice. */
  predicate HasNotices(notices: Notices, id: UserId)
  {
    exists n :: n in notices && notices[n].authorId == id
  }

  /** `count({ where: { role: ADMIN, NOT: { id } } })`. */
  function AdminCountExcept(users: Users, id: UserId): (n: nat)
    ensures n == AdminCount(users) - (if id in users && users[id].role == ADMIN then 1 else 0)
  {
    if id in AdminIds(users) then
      assert AdminIds(users) == (AdminIds(users) - {id}) + {id};
      |AdminIds(users) - {id}|
    else
      assert AdminIds(users) - {id} == AdminIds(users);
      |AdminIds(users) - {id}|
  }

  /** Adding a row raises the admin count by one exactly when the row is an admin. */
  lemma AdminCountInsert(users: Users, id: UserId, u: User)
    requires id !in users
    ensures AdminCount(users[id := u]) == AdminCount(users) + (if u.role == ADMIN then 1 else 0)
  {
    if u.role == ADMIN {
      assert AdminIds(users[id := u]) == AdminIds(users) + {id};
    } else {
      assert AdminIds(users[id := u]) == AdminIds(users);
    }
  }

  /** Removing a row lowers the admin count by one exactly when the row was an admin. */
  lemma AdminCountRemove(users: Users, id: UserId)
    requires id in users
    ensures AdminCount(users - {id}) == AdminCount(users) - (if users[id].role == ADMIN then 1 else 0)
  {
    assert AdminIds(users - {id}) == AdminIds(users) - {id};
    if users[id].role == ADMIN {
      assert AdminIds(users) == (AdminIds(users) - {id}) + {id};
    }
  }

  /** After giving row `id` the role `r`, the admin count is the count of the
      other admins, plus one if `r` is ADMIN. */
  lemma AdminCountSetRole(users: Users, id: UserId, r: Role)
    requires id in users
    ensures AdminCount(users[id := users[id].(role := r)]) == AdminCountExcept(users, id) + (if r == ADMIN then 1 else 0)
  {
    var after := users[id := users[id].(role := r)];
    if r == ADMIN {
      assert AdminIds(after) == (AdminIds(users) - {id}) + {id};
    } else {
      assert AdminIds(after) == AdminIds(users) - {id};
    }
  }
}
