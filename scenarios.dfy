/** Request sequences run against a fresh store, with what each answers. They
    show the contracts of the route handlers at work: the two-admin ceiling,
    the last-admin guard on delete and its absence on role change, the foreign
    key that keeps an author while their notice exists, and a registration
    followed by a login. */
module Scenarios {
  import opened Domain
  import opened Middleware
  import opened Database
  import opened UserRoutes
  import opened NoticeRoutes
  import opened AuthRoutes

  /** An admin creates two admins, is refused a third, deletes one, is refused
      deleting the other (the last one), and then demotes that last admin to
      teacher, which succeeds and leaves no admin at all. */
  method AdminCeilingAndFloor() returns (codes: seq<Status>, adminsLeft: nat)
    ensures codes == [Created, Created, Forbidden, Ok, Forbidden, Ok]
    ensures adminsLeft == 0
  {
    var db := new Store();
    var req, verify := AdminRequest();
    var hash: Hasher := password => "hashed:" + password;
    var created, ada, bo := CreateTwoAdmins(db, req, verify, hash);
    var removed;
    removed, adminsLeft := RemoveBothAdmins(db, req, verify, ada, bo);
    codes := created + removed;
  }

  /** A request whose token verifies as an admin's. The token names an admin
      account; tokens are not checked against the store. */
  method AdminRequest() returns (req: Request, verify: Verifier)
    ensures fresh(req) && AdminOnly(req, verify).Admitted?
  {
    verify := token => Some(Claims(1000, ADMIN));
    req := new Request(Some("Bearer" + " " + "admin-token"));
    TokenOfScheme("Bearer", "admin-token");
  }

  /** Three admin creations on an empty store: the third breaks the ceiling. */
  method CreateTwoAdmins(db: Store, req: Request, verify: Verifier, hash: Hasher) returns (codes: seq<Status>, ada: UserId, bo: UserId)
    requires db.Valid() && db.users == map[] && db.notices == map[]
    requires AdminOnly(req, verify).Admitted?
    modifies db, req`user
    ensures db.Valid() && db.notices == map[]
    ensures codes == [Created, Created, Forbidden]
    ensures ada != bo && db.users.Keys == {ada, bo}
    ensures db.users[ada].role == ADMIN && db.users[bo].role == ADMIN
  {
    var s1, first := CreateUser(db, req, verify, NewUser("Ada", "ada@school.test", "pw", ADMIN), hash, 1);
    assert !EmailTaken(map[], "ada@school.test");
    assert AdminIds(map[]) == {};
    ada := first.value.id;
    AdminCountInsert(map[], ada, db.users[ada]);
    var afterAda := db.users;
    assert afterAda.Keys == {ada};

    var s2, second := CreateUser(db, req, verify, NewUser("Bo", "bo@school.test", "pw", ADMIN), hash, 2);
    assert !EmailTaken(afterAda, "bo@school.test");
    bo := second.value.id;
    AdminCountInsert(afterAda, bo, db.users[bo]);

    var s3, third := CreateUser(db, req, verify, NewUser("Cy", "cy@school.test", "pw", ADMIN), hash, 3);
    codes := [s1, s2, s3];
  }

  /** With exactly two admins: deleting one succeeds, deleting the last one is
      refused, demoting the last one succeeds. */
  method RemoveBothAdmins(db: Store, req: Request, verify: Verifier, ada: UserId, bo: UserId) returns (codes: seq<Status>, adminsLeft: nat)
    requires db.Valid() && ada != bo && db.users.Keys == {ada, bo} && db.notices == map[]
    requires db.users[ada].role == ADMIN && db.users[bo].role == ADMIN
    requires AdminOnly(req, verify).Admitted?
    modifies db, req`user
    ensures codes == [Ok, Forbidden, Ok]
    ensures adminsLeft == 0
  {
    assert AdminIds(db.users) == {ada, bo};
    var beforeDelete := db.users;
    var s1 := DeleteUser(db, req, verify, ada);
    AdminCountRemove(beforeDelete, ada);

    var s2 := DeleteUser(db, req, verify, bo);

    var beforeDemote := db.users;
    var s3, demoted := UpdateUserRole(db, req, verify, bo, TEACHER);
    AdminCountSetRole(beforeDemote, bo, TEACHER);
    codes := [s1, s2, s3];
    adminsLeft := AdminCount(db.users);
  }

  /** A visitor registers, is refused a second registration with the same
      email, and logs in with a password that is not theirs. */
  method RegisterThenLogin() returns (first: Status, second: Status, login: Response<Session>, id: UserId)
    ensures first == Created && second == Conflict
    ensures login.status == Ok && login.body.Some?
    ensures login.body.value.id == id && login.body.value.role == STUDENT
  {
    var db := new Store();
    var sign: Signer := claims => "signed";
    var hash: Hasher := password => "hashed:" + password;
    var session;
    first, session := Register(db, RegisterBody("Sam", "sam@school.test", "secret", Some(ADMIN)), hash, sign, 1);
    id := session.value.id;
    var again;
    second, again := Register(db, RegisterBody("Sam", "sam@school.test", "other", None), hash, sign, 2);
    login := Login(db.users, "sam@school.test", "not-the-password", sign);
  }

  /** An admin creates a teacher, the teacher posts a notice, and the admin is
      then refused the teacher's deletion (500): the notice still names its
      author. The listing still shows the notice with the teacher's name. */
  method DeleteAuthorRefused() returns (codes: seq<Status>, listed: seq<NoticeView>)
    ensures codes == [Created, Created, ServerError]
    ensures |listed| == 1 && listed[0].authorName == "Tess"
  {
    var db := new Store();
    var adminReq, adminVerify := AdminRequest();
    var s1, tess := AddTeacher(db, adminReq, adminVerify);
    var s2, nid := PostAsTeacher(db, tess);
    var s3 := DeleteUser(db, adminReq, adminVerify, tess);
    codes := [s1, s2, s3];
    listed := ListNotices(db.users, db.notices, None, None);
    ListAllWhenUnfiltered(db.users, db.notices);
    assert listed[0].id == nid;
  }

  /** On an empty store an admin creates the teacher "Tess". */
  method AddTeacher(db: Store, req: Request, verify: Verifier) returns (code: Status, tess: UserId)
    requires db.Valid() && db.users == map[] && db.notices == map[]
    requires AdminOnly(req, verify).Admitted?
    modifies db, req`user
    ensures db.Valid() && db.notices == map[]
    ensures code == Created
    ensures db.users.Keys == {tess} && db.users[tess].name == "Tess" && db.users[tess].role == TEACHER
  {
    var hash: Hasher := password => "hashed:" + password;
    assert !EmailTaken(map[], "tess@school.test");
    var teacher;
    code, teacher := CreateUser(db, req, verify, NewUser("Tess", "tess@school.test", "pw", TEACHER), hash, 1);
    tess := teacher.value.id;
  }

  /** Teacher `tess` posts the only notice of the board. */
  method PostAsTeacher(db: Store, tess: UserId) returns (code: Status, nid: NoticeId)
    requires db.Valid() && tess in db.users && db.notices == map[]
    modifies db
    ensures db.Valid() && db.users == old(db.users)
    ensures code == Created
    ensures db.notices.Keys == {nid} && db.notices[nid].authorId == tess
  {
    var verify: Verifier := token => Some(Claims(tess, TEACHER));
    var req := new Request(Some("Bearer" + " " + "teacher-token"));
    TokenOfScheme("Bearer", "teacher-token");
    assert TeacherOrAdmin(req, verify).Admitted?;
    var notice;
    code, notice := CreateNotice(db, req, verify, NoticeBody(Some("Exam"), Some("Room 4"), None), 2);
    nid := notice.value.id;
  }
}
