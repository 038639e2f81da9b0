/** The notice routes: a public listing filtered by creation date and ordered
    newest first, creation by teachers and admins, and deletion by an admin or
    the notice's author. */
module NoticeRoutes {
  import opened Domain
  import opened Middleware
  import opened Database

  /** A notice as the routes answer with it: the row plus its author's name. */
  datatype NoticeView = NoticeView(
    id: NoticeId, title: string, content: string, important: bool,
    createdAt: int, authorId: UserId, authorName: string)

  /** The body of `POST /notices`; a field the client left out is None. */
  datatype NoticeBody = NoticeBody(title: Option<string>, content: Option<string>, important: Option<bool>)

  /** The stored row an answer was made from. */
  function RowOf(v: NoticeView): Notice
  {
    Notice(v.title, v.content, v.important, v.createdAt, v.authorId)
  }

  /** The answer for notice `id`: its row, which the answer gives back whole,
      and the name of its author, found through the foreign key. */
  function Project(users: Users, id: NoticeId, n: Notice): (v: NoticeView)
    requires n.authorId in users
    ensures v.id == id && RowOf(v) == n
    ensures v.authorName == users[n.authorId].name
  {
    NoticeView(id, n.title, n.content, n.important, n.createdAt, n.authorId, users[n.authorId].name)
  }

  // -------------------------------------------------------------- GET /notices

  /** The date filter: `gte: startDate` when given, `lte: endDate` when given.
      An absent or empty query parameter is None. */
  predicate InRange(createdAt: int, startDate: Option<int>, endDate: Option<int>): (within: bool)
    ensures startDate.None? && endDate.None? ==> within
    ensures startDate.Some? && endDate.Some? && startDate.value > endDate.value ==> !within
  {
    (startDate.Some? ==> startDate.value <= createdAt) && (endDate.Some? ==> createdAt <= endDate.value)
  }

  /** `findMany({ where: dateFilter })`: without bounds every notice, with a
      start after the end none. */
  function Selected(notices: Notices, startDate: Option<int>, endDate: Option<int>): (ids: set<NoticeId>)
    ensures ids <= notices.Keys
    ensures startDate.None? && endDate.None? ==> ids == notices.Keys
    ensures startDate.Some? && endDate.Some? && startDate.value > endDate.value ==> ids == {}
  {
    set id | id in notices && InRange(notices[id].createdAt, startDate, endDate)
  }

  /** Newest-first order: later `createdAt` first; among equal timestamps the
      larger id first. */
  predicate ListedBefore(notices: Notices, a: NoticeId, b: NoticeId)
    requires a in notices && b in notices
  {
    notices[a].createdAt > notices[b].createdAt || (notices[a].createdAt == notices[b].createdAt && a >= b)
  }

  ghost predicate IsNewest(notices: Notices, ids: set<NoticeId>, n: NoticeId)
    requires ids <= notices.Keys
  {
    n in ids && forall m :: m in ids ==> ListedBefore(notices, n, m)
  }

  lemma {:induction false} NewestExists(notices: Notices, ids: set<NoticeId>)
    requires ids != {} && ids <= notices.Keys
    ensures exists n :: IsNewest(notices, ids, n)
    decreases ids
  {
    var x :| x in ids;
    var rest := ids - {x};
    if rest == {} {
      forall m | m in ids
        ensures ListedBefore(notices, x, m)
      {
        assert m !in rest;
      }
      assert IsNewest(notices, ids, x);
    } else {
      NewestExists(notices, rest);
      var y :| IsNewest(notices, rest, y);
      var n := if ListedBefore(notices, x, y) then x else y;
      forall m | m in ids
        ensures ListedBefore(notices, n, m)
      {
        if m != x {
          assert m in rest;
          assert ListedBefore(notices, y, m);
        }
      }
      assert IsNewest(notices, ids, n);
    }
  }

  function Newest(notices: Notices, ids: set<NoticeId>): (n: NoticeId)
    requires ids != {} && ids <= notices.Keys
    ensures n in ids && forall m :: m in ids ==> ListedBefore(notices, n, m)
  {
    NewestExists(notices, ids);
    var n :| n in ids && forall m :: m in ids ==> ListedBefore(notices, n, m);
    n
  }

  /** `orderBy: { createdAt: 'desc' }`: each id once, newest first. */
  function NewestFirst(notices: Notices, ids: set<NoticeId>): (r: seq<NoticeId>)
    requires ids <= notices.Keys
    ensures |r| == |ids|
    ensures forall i :: 0 <= i < |r| ==> r[i] in ids
    ensures forall id :: id in ids ==> id in r
    ensures forall i, j :: 0 <= i < j < |r| ==> r[i] != r[j]
    ensures forall i, j :: 0 <= i < j < |r| ==> notices[r[i]].createdAt >= notices[r[j]].createdAt
    decreases ids
  {
    if ids == {} then []
    else
      var n := Newest(notices, ids);
      var rest := NewestFirst(notices, ids - {n});
      PrependNewest(notices, ids, n, rest);
      [n] + rest
  }

  /** Putting the newest notice in front of the others in newest-first order
      gives all of them in newest-first order. */
  lemma PrependNewest(notices: Notices, ids: set<NoticeId>, n: NoticeId, rest: seq<NoticeId>)
    requires ids <= notices.Keys
    requires n in ids && forall m :: m in ids ==> ListedBefore(notices, n, m)
    requires |rest| == |ids - {n}|
    requires forall i :: 0 <= i < |rest| ==> rest[i] in ids - {n}
    requires forall id :: id in ids - {n} ==> id in rest
    requires forall i, j :: 0 <= i < j < |rest| ==> rest[i] != rest[j]
    requires forall i, j :: 0 <= i < j < |rest| ==> notices[rest[i]].createdAt >= notices[rest[j]].createdAt
    ensures |[n] + rest| == |ids|
    ensures forall i :: 0 <= i < |[n] + rest| ==> ([n] + rest)[i] in ids
    ensures forall id :: id in ids ==> id in [n] + rest
    ensures forall i, j :: 0 <= i < j < |[n] + rest| ==> ([n] + rest)[i] != ([n] + rest)[j]
    ensures forall i, j :: 0 <= i < j < |[n] + rest| ==>
      notices[([n] + rest)[i]].createdAt >= notices[([n] + rest)[j]].createdAt
  {
    var r := [n] + rest;
    assert forall i :: 1 <= i < |r| ==> r[i] == rest[i - 1] && r[i] != n && notices[n].createdAt >= notices[r[i]].createdAt;
  }

  /** `notices.map(…)`: at each place the notice ordered there, its row given
      back whole, with its author's name. */
  function Projected(users: Users, notices: Notices, order: seq<NoticeId>): (r: seq<NoticeView>)
    requires forall i :: 0 <= i < |order| ==> order[i] in notices
    requires AuthorsExist(users, notices)
    ensures |r| == |order|
    ensures forall i :: 0 <= i < |r| ==>
      && r[i].id == order[i]
      && RowOf(r[i]) == notices[order[i]]
      && r[i].authorName == users[notices[order[i]].authorId].name
  {
    seq(|order|, i requires 0 <= i < |order| => Project(users, order[i], notices[order[i]]))
  }

  /** GET /notices: exactly the notices whose `createdAt` lies within the bounds
      given, each once, newest first, each carrying its author's name. */
  function ListNotices(users: Users, notices: Notices, startDate: Option<int>, endDate: Option<int>): (r: seq<NoticeView>)
    requires AuthorsExist(users, notices)
    ensures |r| == |Selected(notices, startDate, endDate)|
    ensures forall i :: 0 <= i < |r| ==>
      && r[i].id in notices
      && InRange(notices[r[i].id].createdAt, startDate, endDate)
      && r[i] == Project(users, r[i].id, notices[r[i].id])
    ensures forall id :: id in notices && InRange(notices[id].createdAt, startDate, endDate) ==>
      exists i :: 0 <= i < |r| && r[i].id == id
    ensures forall i, j :: 0 <= i < j < |r| ==> r[i].id != r[j].id
    ensures forall i, j :: 0 <= i < j < |r| ==> r[i].createdAt >= r[j].createdAt
  {
    var selected := Selected(notices, startDate, endDate);
    var order := NewestFirst(notices, selected);
    ProjectedInOrder(users, notices, startDate, endDate, order);
    Projected(users, notices, order)
  }

  /** Projecting the selected ids, newest first, keeps each selected notice once
      and keeps the order. */
  lemma ProjectedInOrder(users: Users, notices: Notices, startDate: Option<int>, endDate: Option<int>, order: seq<NoticeId>)
    requires forall i :: 0 <= i < |order| ==> order[i] in Selected(notices, startDate, endDate)
    requires forall id :: id in Selected(notices, startDate, endDate) ==> id in order
    requires forall i, j :: 0 <= i < j < |order| ==> order[i] != order[j]
    requires forall i, j :: 0 <= i < j < |order| ==> notices[order[i]].createdAt >= notices[order[j]].createdAt
    requires AuthorsExist(users, notices)
    ensures forall i :: 0 <= i < |order| ==>
      && Projected(users, notices, order)[i].id in notices
      && InRange(notices[Projected(users, notices, order)[i].id].createdAt, startDate, endDate)
      && Projected(users, notices, order)[i] == Project(users, Projected(users, notices, order)[i].id, notices[Projected(users, notices, order)[i].id])
    ensures forall id :: id in notices && InRange(notices[id].createdAt, startDate, endDate) ==>
      exists i :: 0 <= i < |order| && Projected(users, notices, order)[i].id == id
    ensures forall i, j :: 0 <= i < j < |order| ==> Projected(users, notices, order)[i].id != Projected(users, notices, order)[j].id
    ensures forall i, j :: 0 <= i < j < |order| ==> Projected(users, notices, order)[i].createdAt >= Projected(users, notices, order)[j].createdAt
  {
    var r := Projected(users, notices, order);
    assert forall i :: 0 <= i < |r| ==> r[i].id == order[i] && r[i].createdAt == notices[order[i]].createdAt;
    forall id | id in notices && InRange(notices[id].createdAt, startDate, endDate)
      ensures exists i :: 0 <= i < |order| && r[i].id == id
    {
      assert id in Selected(notices, startDate, endDate);
      var i :| 0 <= i < |order| && order[i] == id;
      assert r[i].id == id;
    }
  }

  /** Without query parameters the listing holds every notice. */
  lemma ListAllWhenUnfiltered(users: Users, notices: Notices)
    requires AuthorsExist(users, notices)
    ensures var r := ListNotices(users, notices, None, None);
      |r| == |notices| && forall id :: id in notices ==> exists i :: 0 <= i < |r| && r[i].id == id
  {
  }

  // ------------------------------------------------------------- POST /notices

  /** The gate in front of notice creation. */
  function TeacherOrAdmin(req: Request, verify: Verifier): Gate
  {
    Admission(req.authorization, verify, [TEACHER, ADMIN])
  }

  /** A body field is truthy: absent and the empty string are falsy, any other
      string is truthy. */
  predicate Filled(field: Option<string>): (filled: bool)
    ensures field.None? || field == Some("") ==> !filled
    ensures field.Some? && |field.value| > 0 ==> filled
  {
    field.Some? && field.value != ""
  }

  /** POST /notices: title and content are required (400); the author is the
      requesting user and `important` defaults to false. An author id the user
      table no longer holds fails the foreign key (500). */
  method CreateNotice(db: Store, req: Request, verify: Verifier, body: NoticeBody, now: int)
    returns (status: Status, created: Option<NoticeView>)
    requires db.Valid()
    modifies db, req`user
    ensures db.Valid() && db.users == old(db.users)
    ensures TeacherOrAdmin(req, verify).Rejected? ==> status == TeacherOrAdmin(req, verify).status
    ensures TeacherOrAdmin(req, verify).Admitted? && !(Filled(body.title) && Filled(body.content)) ==> status == BadRequest
    ensures (TeacherOrAdmin(req, verify).Admitted? && Filled(body.title) && Filled(body.content) &&
             TeacherOrAdmin(req, verify).claims.userId !in db.users) ==> status == ServerError
    ensures status == Created <==>
      && TeacherOrAdmin(req, verify).Admitted?
      && Filled(body.title) && Filled(body.content)
      && TeacherOrAdmin(req, verify).claims.userId in db.users
    ensures status != Created ==> db.notices == old(db.notices) && created == None
    ensures status == Created ==>
      && created.Some? && created.value.id !in old(db.notices)
      && db.notices == old(db.notices)[created.value.id :=
           Notice(body.title.value, body.content.value,
                  if body.important.Some? then body.important.value else false,
                  now, TeacherOrAdmin(req, verify).claims.userId)]
      && created.value == Project(db.users, created.value.id, db.notices[created.value.id])
  {
    var gate := Admit(req, verify, [TEACHER, ADMIN]);
    if gate.Rejected? {
      return gate.status, None;
    }
    var important := if body.important.Some? then body.important.value else false;
    var authorId := req.user.value.userId;
    if !Filled(body.title) || !Filled(body.content) {
      return BadRequest, None;
    }
    if authorId !in db.users {
      return ServerError, None;
    }
    var notice := Notice(body.title.value, body.content.value, important, now, authorId);
    var id := db.InsertNotice(notice);
    status, created := Created, Some(Project(db.users, id, notice));
  }

  // ------------------------------------------------------- DELETE /notices/:id

  /** DELETE /notices/:id: any authenticated user may ask; 404 for an unknown id;
      the notice goes only when the requester is an admin or its author. */
  method DeleteNotice(db: Store, req: Request, verify: Verifier, id: NoticeId) returns (status: Status)
    requires db.Valid()
    modifies db, req`user
    ensures db.Valid() && db.users == old(db.users)
    ensures Authenticate(req.authorization, verify).Rejected? ==>
      status == Authenticate(req.authorization, verify).status
    ensures Authenticate(req.authorization, verify).Admitted? && id !in old(db.notices) ==> status == NotFound
    ensures (Authenticate(req.authorization, verify).Admitted? && id in old(db.notices) &&
             Authenticate(req.authorization, verify).claims.role != ADMIN &&
             old(db.notices)[id].authorId != Authenticate(req.authorization, verify).claims.userId) ==> status == Forbidden
    ensures status == Ok <==>
      && Authenticate(req.authorization, verify).Admitted?
      && id in old(db.notices)
      && (Authenticate(req.authorization, verify).claims.role == ADMIN ||
          old(db.notices)[id].authorId == Authenticate(req.authorization, verify).claims.userId)
    ensures status != Ok ==> db.notices == old(db.notices)
    ensures status == Ok ==> db.notices == old(db.notices) - {id}
  {
    var step := req.AuthenticateToken(verify);
    if step.Halt? {
      return step.status;
    }
    var userId := req.user.value.userId;
    var userRole := req.user.value.role;
    if id !in db.notices {
      return NotFound;
    }
    var notice := db.notices[id];
    if userRole != ADMIN && notice.authorId != userId {
      return Forbidden;
    }
    db.notices := db.notices - {id};
    status := Ok;
  }
}
