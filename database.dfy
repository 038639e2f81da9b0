/** The relational store the handlers reach through the ORM client: the user
    and notice tables, updated in place. */
module Database {
  import opened Domain

  class Store {
    var users: Users
    var notices: Notices
    /** The store's id generators: every id below these has been handed out. */
    var nextUserId: UserId
    var nextNoticeId: NoticeId

    /** Every row's id was issued by its table's generator. */
    ghost predicate IdsIssued()
      reads this
    {
      && (forall id :: id in users ==> id < nextUserId)
      && (forall id :: id in notices ==> id < nextNoticeId)
    }

    /** What the handlers keep true of the store between requests: the unique
        email column, the ceiling of two admins and the foreign key from a
        notice to its author. There is no floor on the admins. */
    ghost predicate Valid(): (valid: bool)
      reads this
      ensures valid ==> forall email :: |UsersWithEmail(users, email)| <= 1
    {
      UniqueEmailsAtMostOne(users);
      IdsIssued() && EmailsUnique(users) && AdminCount(users) <= 2 && AuthorsExist(users, notices)
    }

    constructor ()
      ensures Valid()
      ensures users == map[] && notices == map[]
    {
      users, notices := map[], map[];
      nextUserId, nextNoticeId := 0, 0;
      assert AdminIds(map[]) == {};
    }

    /** `prisma.user.create`: the row gets an id no row has. */
    method InsertUser(u: User) returns (id: UserId)
      requires IdsIssued()
      modifies this
      ensures IdsIssued()
      ensures id !in old(users) && users == old(users)[id := u]
      ensures notices == old(notices) && nextNoticeId == old(nextNoticeId)
    {
      id := nextUserId;
      users := users[id := u];
      nextUserId := nextUserId + 1;
    }

    /** `prisma.notice.create`: the row gets an id no row has. */
    method InsertNotice(n: Notice) returns (id: NoticeId)
      requires IdsIssued()
      modifies this
      ensures IdsIssued()
      ensures id !in old(notices) && notices == old(notices)[id := n]
      ensures users == old(users) && nextUserId == old(nextUserId)
    {
      id := nextNoticeId;
      notices := notices[id := n];
      nextNoticeId := nextNoticeId + 1;
    }
  }
}
