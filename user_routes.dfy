/** The admin-only user management routes: list, create, change role, delete.
    Every route sits behind `authenticateToken, authorizeRoles(ADMIN)`. The
    create and role routes keep at most two admins; only delete guards the
    last admin, so a role change can still leave the board without one. */
module UserRoutes {
  import opened Domain
  import opened Middleware
  import opened Database

  /** The columns the user routes select: everything but the password hash. */
  datatype UserView = UserView(id: UserId, name: string, email: string, role: Role, createdAt: int)

  /** The columns the role route selects. */
  datatype RoleView = RoleView(id: UserId, name: string, email: string, role: Role)

  /** The body of `POST /users`. */
  datatype NewUser = NewUser(name: string, email: string, password: string, role: Role)

  function ViewOf(id: UserId, u: User): UserView
  {
    UserView(id, u.name, u.email, u.role, u.createdAt)
  }

  /** The gate in front of every user route. */
  function AdminOnly(req: Request, verify: Verifier): Gate
  {
    Admission(req.authorization, verify, [ADMIN])
  }

  // ---------------------------------------------------------------- GET /users

  ghost predicate IsMin(ids: set<UserId>, m: UserId)
  {
    m in ids && forall k :: k in ids ==> m <= k
  }

  lemma {:induction false} MinIdExists(ids: set<UserId>)
    requires ids != {}
    ensures exists m :: IsMin(ids, m)
    decreases ids
  {
    var x :| x in ids;
    var rest := ids - {x};
    if rest == {} {
      forall k | k in ids
        ensures x <= k
      {
        assert k !in rest;
      }
      assert IsMin(ids, x);
    } else {
      MinIdExists(rest);
      var y :| IsMin(rest, y);
      var m := if x < y then x else y;
      forall k | k in ids
        ensures m <= k
      {
        if k != x { assert k in rest; }
      }
      assert IsMin(ids, m);
    }
  }

  function MinId(ids: set<UserId>): (m: UserId)
    requires ids != {}
    ensures m in ids && forall k :: k in ids ==> m <= k
  {
    MinIdExists(ids);
    var m :| m in ids && forall k :: k in ids ==> m <= k;
    m
  }

  /** The ids of a set in increasing order; the order the store lists users in. */
  function AscendingIds(ids: set<UserId>): (r: seq<UserId>)
    ensures |r| == |ids|
    ensures forall i :: 0 <= i < |r| ==> r[i] in ids
    ensures forall id :: id in ids ==> id in r
    ensures forall i, j :: 0 <= i < j < |r| ==> r[i] < r[j]
    decreases ids
  {
    if ids == {} then []
    else
      var m := MinId(ids);
      var rest := AscendingIds(ids - {m});
      PrependMin(ids, m, rest);
      [m] + rest
  }

  /** Putting the least id in front of the others in increasing order gives all
      of them in increasing order. */
  lemma PrependMin(ids: set<UserId>, m: UserId, rest: seq<UserId>)
    requires m in ids && forall k :: k in ids ==> m <= k
    requires |rest| == |ids - {m}|
    requires forall i :: 0 <= i < |rest| ==> rest[i] in ids - {m}
    requires forall id :: id in ids - {m} ==> id in rest
    requires forall i, j :: 0 <= i < j < |rest| ==> rest[i] < rest[j]
    ensures |[m] + rest| == |ids|
    ensures forall i :: 0 <= i < |[m] + rest| ==> ([m] + rest)[i] in ids
    ensures forall id :: id in ids ==> id in [m] + rest
    ensures forall i, j :: 0 <= i < j < |[m] + rest| ==> ([m] + rest)[i] < ([m] + rest)[j]
  {
    var r := [m] + rest;
    assert forall i :: 1 <= i < |r| ==> r[i] == rest[i - 1] && m < r[i];
  }

  function Views(users: Users, ks: seq<UserId>): (rows: seq<UserView>)
    requires forall i :: 0 <= i < |ks| ==> ks[i] in users
    ensures |rows| == |ks|
    ensures forall i :: 0 <= i < |ks| ==> rows[i] == ViewOf(ks[i], users[ks[i]])
  {
    if ks == [] then [] else [ViewOf(ks[0], users[ks[0]])] + Views(users, ks[1..])
  }

  /** Rows built from distinct keys carry distinct ids, each its own user's. */
  lemma ViewsOfDistinct(users: Users, ks: seq<UserId>)
    requires forall i :: 0 <= i < |ks| ==> ks[i] in users
    requires forall i, j :: 0 <= i < j < |ks| ==> ks[i] < ks[j]
    ensures forall i :: 0 <= i < |ks| ==> Views(users, ks)[i].id in users && Views(users, ks)[i] == ViewOf(Views(users, ks)[i].id, users[Views(users, ks)[i].id])
    ensures forall i, j :: 0 <= i < j < |ks| ==> Views(users, ks)[i].id != Views(users, ks)[j].id
  {
    var rows := Views(users, ks);
    assert forall i :: 0 <= i < |rows| ==> rows[i].id == ks[i];
  }

  /** `prisma.user.findMany({ select: … })`: one row per user, password left out. */
  function Listing(users: Users): (rows: seq<UserView>)
    ensures |rows| == |users|
    ensures forall i :: 0 <= i < |rows| ==> rows[i].id in users && rows[i] == ViewOf(rows[i].id, users[rows[i].id])
    ensures forall i, j :: 0 <= i < j < |rows| ==> rows[i].id != rows[j].id
  {
    var ks := AscendingIds(users.Keys);
    ViewsOfDistinct(users, ks);
    Views(users, ks)
  }

  /** Every user is listed. */
  lemma ListingComplete(users: Users, id: UserId)
    requires id in users
    ensures exists i :: 0 <= i < |Listing(users)| && Listing(users)[i].id == id
  {
    var ks := AscendingIds(users.Keys);
    assert id in ks;
    var i :| 0 <= i < |ks| && ks[i] == id;
    var rows := Listing(users);
    assert rows == Views(users, ks);
    assert rows[i].id == id;
  }

  /** `users.filter(user => user.role === ADMIN).length`. */
  function CountAdmins(rows: seq<UserView>): (n: nat)
    ensures n <= |rows|
    ensures n == 0 <==> forall i :: 0 <= i < |rows| ==> rows[i].role != ADMIN
  {
    if rows == [] then 0
    else (if rows[0].role == ADMIN then 1 else 0) + CountAdmins(rows[1..])
  }

  function AdminsAmong(users: Users, ks: seq<UserId>): set<UserId>
  {
    set k | k in ks && k in users && users[k].role == ADMIN
  }

  lemma {:induction false} CountAdminsOfViews(users: Users, ks: seq<UserId>)
    requires forall i :: 0 <= i < |ks| ==> ks[i] in users
    requires forall i, j :: 0 <= i < j < |ks| ==> ks[i] != ks[j]
    ensures CountAdmins(Views(users, ks)) == |AdminsAmong(users, ks)|
  {
    if ks != [] {
      var rest := ks[1..];
      CountAdminsOfViews(users, rest);
      assert Views(users, ks)[1..] == Views(users, rest);
      assert ks[0] !in rest;
      if users[ks[0]].role == ADMIN {
        assert AdminsAmong(users, ks) == AdminsAmong(users, rest) + {ks[0]};
      } else {
        assert AdminsAmong(users, ks) == AdminsAmong(users, rest);
      }
    } else {
      assert AdminsAmong(users, ks) == {};
    }
  }

  /** The `adminCount` that GET /users reports is the store's admin count, the
      same number the create route checks the ceiling against. */
  lemma ListingAdminCount(users: Users)
    ensures CountAdmins(Listing(users)) == AdminCount(users)
  {
    var ks := AscendingIds(users.Keys);
    CountAdminsOfViews(users, ks);
    AdminsAmongAll(users, ks);
  }

  /** Ids that cover every user select exactly the store's admins. */
  lemma AdminsAmongAll(users: Users, ks: seq<UserId>)
    requires forall k :: k in users ==> k in ks
    ensures AdminsAmong(users, ks) == AdminIds(users)
  {
  }

  /** GET /users: the user list and how many of them are admins. */
  method ListUsers(db: Store, req: Request, verify: Verifier) returns (status: Status, rows: seq<UserView>, adminCount: nat)
    modifies req`user
    ensures AdminOnly(req, verify).Rejected? ==>
      status == AdminOnly(req, verify).status && rows == [] && adminCount == 0
    ensures AdminOnly(req, verify).Admitted? ==>
      status == Ok && rows == Listing(db.users) && adminCount == CountAdmins(rows) && adminCount == AdminCount(db.users)
  {
    var gate := Admit(req, verify, [ADMIN]);
    if gate.Rejected? {
      return gate.status, [], 0;
    }
    rows := Listing(db.users);
    adminCount := CountAdmins(rows);
    ListingAdminCount(db.users);
    status := Ok;
  }

  // --------------------------------------------------------------- POST /users

  /** POST /users: duplicate email first (409), then the admin ceiling (403);
      teachers and students are not counted. */
  method CreateUser(db: Store, req: Request, verify: Verifier, body: NewUser, hash: Hasher, now: int)
    returns (status: Status, created: Option<UserView>)
    requires db.Valid()
    modifies db, req`user
    ensures db.Valid() && db.notices == old(db.notices)
    ensures AdminOnly(req, verify).Rejected? ==> status == AdminOnly(req, verify).status
    ensures AdminOnly(req, verify).Admitted? && EmailTaken(old(db.users), body.email) ==> status == Conflict
    ensures (AdminOnly(req, verify).Admitted? && !EmailTaken(old(db.users), body.email) &&
             body.role == ADMIN && AdminCount(old(db.users)) >= 2) ==> status == Forbidden
    ensures status == Created <==>
      && AdminOnly(req, verify).Admitted?
      && !EmailTaken(old(db.users), body.email)
      && (body.role == ADMIN ==> AdminCount(old(db.users)) < 2)
    ensures status != Created ==> db.users == old(db.users) && created == None
    ensures status == Created ==>
      && created.Some? && created.value.id !in old(db.users)
      && db.users == old(db.users)[created.value.id := User(body.name, body.email, hash(body.password), body.role, now)]
      && created.value == ViewOf(created.value.id, db.users[created.value.id])
  {
    var gate := Admit(req, verify, [ADMIN]);
    if gate.Rejected? {
      return gate.status, None;
    }
    if EmailTaken(db.users, body.email) {
      return Conflict, None;
    }
    if body.role == ADMIN {
      var adminCount := AdminCount(db.users);
      if adminCount >= 2 {
        return Forbidden, None;
      }
    }
    var user := User(body.name, body.email, hash(body.password), body.role, now);
    var id := db.InsertUser(user);
    AdminCountInsert(old(db.users), id, user);
    status, created := Created, Some(ViewOf(id, user));
  }

  // ------------------------------------------------------- PUT /users/:id/role

  /** PUT /users/:id/role: 404 for an unknown id; a promotion to ADMIN is refused
      when two admins other than the target exist. A demotion is never checked. */
  method UpdateUserRole(db: Store, req: Request, verify: Verifier, id: UserId, role: Role)
    returns (status: Status, updated: Option<RoleView>)
    requires db.Valid()
    modifies db, req`user
    ensures db.Valid() && db.notices == old(db.notices)
    ensures AdminOnly(req, verify).Rejected? ==> status == AdminOnly(req, verify).status
    ensures AdminOnly(req, verify).Admitted? && id !in old(db.users) ==> status == NotFound
    ensures (AdminOnly(req, verify).Admitted? && id in old(db.users) &&
             role == ADMIN && AdminCountExcept(old(db.users), id) >= 2) ==> status == Forbidden
    ensures status == Ok <==>
      && AdminOnly(req, verify).Admitted?
      && id in old(db.users)
      && (role == ADMIN ==> AdminCountExcept(old(db.users), id) < 2)
    ensures status != Ok ==> db.users == old(db.users) && updated == None
    ensures status == Ok ==>
      && db.users == old(db.users)[id := old(db.users)[id].(role := role)]
      && updated == Some(RoleView(id, db.users[id].name, db.users[id].email, role))
  {
    var gate := Admit(req, verify, [ADMIN]);
    if gate.Rejected? {
      return gate.status, None;
    }
    if id !in db.users {
      return NotFound, None;
    }
    var user := db.users[id];
    if role == ADMIN {
      var adminCount := AdminCountExcept(db.users, id);
      if adminCount >= 2 {
        return Forbidden, None;
      }
    }
    AdminCountSetRole(db.users, id, role);
    db.users := db.users[id := user.(role := role)];
    status, updated := Ok, Some(RoleView(id, user.name, user.email, role));
  }

  // ----------------------------------------------------------- DELETE /users/:id

  /** DELETE /users/:id: 404 for an unknown id; an admin is removed only while
      another admin remains. The foreign key from a notice to its author refuses
      the removal of a user who wrote a notice; the catch answers 500. */
  method DeleteUser(db: Store, req: Request, verify: Verifier, id: UserId) returns (status: Status)
    requires db.Valid()
    modifies db, req`user
    ensures db.Valid() && db.notices == old(db.notices)
    ensures AdminOnly(req, verify).Rejected? ==> status == AdminOnly(req, verify).status
    ensures AdminOnly(req, verify).Admitted? && id !in old(db.users) ==> status == NotFound
    ensures (AdminOnly(req, verify).Admitted? && id in old(db.users) &&
             old(db.users)[id].role == ADMIN && AdminCount(old(db.users)) <= 1) ==> status == Forbidden
    ensures (AdminOnly(req, verify).Admitted? && id in old(db.users) &&
             (old(db.users)[id].role == ADMIN ==> AdminCount(old(db.users)) > 1) &&
             HasNotices(old(db.notices), id)) ==> status == ServerError
    ensures status == Ok <==>
      && AdminOnly(req, verify).Admitted?
      && id in old(db.users)
      && (old(db.users)[id].role == ADMIN ==> AdminCount(old(db.users)) > 1)
      && !HasNotices(old(db.notices), id)
    ensures status != Ok ==> db.users == old(db.users)
    ensures status == Ok ==> db.users == old(db.users) - {id}
  {
    var gate := Admit(req, verify, [ADMIN]);
    if gate.Rejected? {
      return gate.status;
    }
    if id !in db.users {
      return NotFound;
    }
    var user := db.users[id];
    if user.role == ADMIN {
      var adminCount := AdminCount(db.users);
      if adminCount <= 1 {
        return Forbidden;
      }
    }
    if HasNotices(db.notices, id) {
      return ServerError;
    }
    AdminCountRemove(db.users, id);
    db.users := db.users - {id};
    status := Ok;
  }
}
