# Notice board access control, modelled in Dafny

This project models the role-based notice board backend (`notice_server`). The
backend has accounts with the roles ADMIN, TEACHER and STUDENT, JWT bearer-token
authentication, admin-only user management, and notices that teachers and admins
post and that an admin or the author may delete.

The model is one sequential state machine over an abstract store. The store is
`Database.Store`, a class whose `users` and `notices` maps stand for the two
tables behind the ORM client. The handlers take three forms:

- The handlers behind middleware (the four user routes, POST and DELETE
  /notices) are methods. Each takes the store, a `Middleware.Request` (its
  Authorization header and the `req.user` field the middleware fills in) and
  the token verifier. Each runs the Express middleware chain exactly as the
  router does, returns the status code and the response payload, and changes
  only the table it writes, or nothing at all.
- POST /auth/register is a method on the store with no request or verifier,
  since that route has no middleware.
- GET /notices and POST /auth/login change nothing, so they are functions of
  the tables. GET /notices always answers 200, so that status is not a return
  value.

`Store.Valid()` is the invariant every handler keeps. It holds four facts:

- every id was issued by its table's id generator;
- emails are unique;
- there are at most two admins;
- every notice's author is a row of the user table (the foreign key from a
  notice to its author).

There is deliberately no floor on the number of admins. The role route lets the
last admin be demoted, and `Scenarios.AdminCeilingAndFloor` walks through a
sequence of requests that ends with no admin at all.

Modules:

- `Domain`: the records, the status codes, and the email and admin-count
  queries with their update lemmas.
- `Middleware`: `authenticateToken` and `authorizeRoles`, covering header
  splitting, the 401/403 order and `req.user`.
- `Database`: the store class and its row inserts.
- `UserRoutes`: `GET/POST /users`, `PUT /users/:id/role` and
  `DELETE /users/:id`.
- `NoticeRoutes`: `GET/POST /notices` and `DELETE /notices/:id`.
- `AuthRoutes`: `POST /auth/register` and `POST /auth/login`.
- `Scenarios`: request sequences on a fresh store, with the status codes each
  one must produce.

Foreign code is replaced by parameters:

- JWT verification is a `Verifier` (token to claims, or None when `jwt.verify`
  throws).
- JWT signing is a `Signer`.
- bcrypt hashing is a `Hasher`, and the stored hash is the hasher applied to
  the body's password.
- The database clock is a `now` timestamp.

## Model

| member | source | states |
|---|---|---|
| `Middleware.Split` | src/middleware/auth.ts:25 | `split(' ')` always yields at least one piece and no piece contains a space |
| `Middleware.JoinSplit` | src/middleware/auth.ts:25 | joining the pieces of a header with single spaces gives the header back, so the split loses nothing |
| `Middleware.SplitPrefix` | src/middleware/auth.ts:25 | a space-free word in front of more text is glued to that text's first piece |
| `Middleware.SplitJoin` | src/middleware/auth.ts:25 | splitting space-free pieces joined by spaces gives exactly those pieces back |
| `Middleware.TokenOf` | src/middleware/auth.ts:24-27 | a token taken from the header is non-empty and has no space; a missing or empty header gives none |
| `Middleware.TokenOfFields` | src/middleware/auth.ts:24-27 | the token is exactly the second space-separated piece of the header, and only when that piece is non-empty |
| `Middleware.TokenOfScheme` | src/middleware/auth.ts:25 | `"<scheme> <token>"` yields the token for any first word, not only `Bearer` |
| `Middleware.TokenOfOneWord` | src/middleware/auth.ts:25-29 | a header without a space carries no token |
| `Middleware.Authenticate` | src/middleware/auth.ts:23-42 | 401 exactly when there is no token; 403 exactly when a token fails verification; otherwise the decoded claims |
| `Middleware.AuthorizeRoles` | src/middleware/auth.ts:44-56 | the request passes exactly when `req.user` is set and its role is in the list; 401 without `req.user`; 403 for a role not allowed |
| `Middleware.Admission` | src/middleware/auth.ts:23-56 | the two middlewares together: 401 only for a missing token; 403 for a bad token or a role not allowed; admission exactly for a verified token with an allowed role, carrying its claims |
| `Middleware.Request.AuthenticateToken` | src/middleware/auth.ts:23-42 | a rejection answers with the status above and leaves `req.user` alone; an admission sets `req.user` to exactly the decoded id and role and continues |
| `Middleware.Admit` | src/middleware/auth.ts:23-56 | running the chain on a request decides `Admission`, and an admitted request carries the claims in `req.user` |
| `Domain.EmailTaken` | src/routes/user.ts:42-48 | `findUnique({ where: { email } })` finds a row exactly when some row holds the email (`UsersWithEmail` is non-empty), and under the unique constraint exactly one row holds it; the same lookup guards src/routes/auth.ts:19-25 |
| `Domain.UniqueEmailsAtMostOne` | src/routes/auth.ts:67-69 | under the unique constraint an email names at most one row, so the lookup by email is unambiguous |
| `Domain.AdminCount` | src/routes/user.ts:52-54 | `count({ where: { role: ADMIN } })` is at most the number of users, and zero exactly when no user is an admin; the same count guards the delete at src/routes/user.ts:153-155 |
| `Domain.AdminCountExcept` | src/routes/user.ts:106-111 | the admin count without the target is the admin count, minus one when the target is an admin |
| `Domain.AdminCountInsert` | src/routes/user.ts:66-80 | adding a row raises the admin count by one exactly when the row is an admin |
| `Domain.AdminCountRemove` | src/routes/user.ts:163-165 | removing a row lowers the admin count by one exactly when the row was an admin |
| `Domain.AdminCountSetRole` | src/routes/user.ts:119-128 | after a role change the admin count is the count of the other admins, plus one when the new role is ADMIN |
| `Database.Store.Valid` | src/routes/user.ts:51-58 | the invariant every handler keeps: ids issued by the generators, unique emails, at most two admins, every notice's author a stored user; under it each email names at most one user |
| `Database.Store.InsertUser` | src/routes/user.ts:66-80 | `user.create` adds one row under an id no row has and changes nothing else |
| `Database.Store.InsertNotice` | src/routes/notice.ts:68-83 | `notice.create` adds one row under an id no row has and changes nothing else |
| `UserRoutes.MinIdExists` | src/routes/user.ts:13-21 | every non-empty id set has a least element |
| `UserRoutes.MinId` | src/routes/user.ts:13-21 | the result is in the set and no id of the set is smaller |
| `UserRoutes.AscendingIds` | src/routes/user.ts:13-21 | every id of the set exactly once, in increasing order |
| `UserRoutes.PrependMin` | src/routes/user.ts:13-21 | putting the least id in front of the rest in increasing order keeps every id once and in increasing order |
| `UserRoutes.Views` | src/routes/user.ts:14-20 | each row carries the id, name, email, role and creation time of its user, and no password |
| `UserRoutes.ViewsOfDistinct` | src/routes/user.ts:13-21 | rows built from distinct ids have distinct ids, each row its own user's |
| `UserRoutes.Listing` | src/routes/user.ts:13-21 | one row per user, each row the projection of a stored user, no user twice |
| `UserRoutes.ListingComplete` | src/routes/user.ts:13-21 | every stored user appears in the listing |
| `UserRoutes.CountAdmins` | src/routes/user.ts:24 | the count is at most the number of rows, and zero exactly when no row is an admin |
| `UserRoutes.CountAdminsOfViews` | src/routes/user.ts:24 | counting admin rows over distinct ids counts exactly the admins among those ids |
| `UserRoutes.ListingAdminCount` | src/routes/user.ts:13-28 | the `adminCount` of the listing equals the store's admin count |
| `UserRoutes.ListUsers` | src/routes/user.ts:11-34 | admin only; answers 200 with every user and an `adminCount` equal to both the number of admin rows and the store's admin count; changes nothing |
| `UserRoutes.CreateUser` | src/routes/user.ts:37-87 | admin only. 409 for a taken email, checked before the ceiling. 403 for a new ADMIN when two admins exist; other roles are not counted. 201 exactly otherwise. On 201 exactly one row is added with the given name, email and role and the hash of the given password, and the view omits the password; every refusal leaves the store unchanged. Unique emails and the ceiling of two admins are kept |
| `UserRoutes.UpdateUserRole` | src/routes/user.ts:90-135 | admin only. 404 for an unknown id. 403 for a promotion when two admins other than the target exist. 200 exactly otherwise, so re-affirming an admin succeeds and a demotion is never refused. Only the target's role changes. The ceiling of two admins is kept |
| `UserRoutes.DeleteUser` | src/routes/user.ts:138-172 | admin only. 404 for an unknown id. 403 for an admin while at most one admin exists. 500 when the user wrote a notice, since the foreign key refuses the removal and the catch answers. 200 exactly otherwise, removing just that user; the notice table is unchanged |
| `NoticeRoutes.InRange` | src/routes/notice.ts:15-23 | the date filter: with neither bound every timestamp passes; with a start after the end none does |
| `NoticeRoutes.Selected` | src/routes/notice.ts:15-26 | the filtered notices are notices of the table; without bounds they are all of them; with a start after the end there are none |
| `NoticeRoutes.NewestExists` | src/routes/notice.ts:35-37 | every non-empty set of notices has one listed before all others |
| `NoticeRoutes.Newest` | src/routes/notice.ts:35-37 | the result is in the set and is listed before every notice of the set |
| `NoticeRoutes.NewestFirst` | src/routes/notice.ts:35-37 | every id of the set exactly once, with `createdAt` never increasing along the sequence |
| `NoticeRoutes.PrependNewest` | src/routes/notice.ts:35-37 | putting the newest notice in front of the rest in newest-first order keeps every id once and the order newest-first |
| `NoticeRoutes.Project` | src/routes/notice.ts:41-49 | the answer for a notice gives back its whole row (`RowOf` recovers it) and its author's name, found through the foreign key; the same shape answers the POST at src/routes/notice.ts:85-93 |
| `NoticeRoutes.Projected` | src/routes/notice.ts:41-49 | the row at each place carries the id ordered there, gives back that notice's stored row whole (`RowOf`), and names its author |
| `NoticeRoutes.ProjectedInOrder` | src/routes/notice.ts:25-49 | projecting the selected ids newest-first yields exactly the selected notices, each once, newest first |
| `NoticeRoutes.ListNotices` | src/routes/notice.ts:10-56 | the notices with `createdAt >= startDate` (when given) and `<= endDate` (when given), each exactly once, ordered by `createdAt` descending, each row copying the notice and its author's name |
| `NoticeRoutes.ListAllWhenUnfiltered` | src/routes/notice.ts:15-25 | without either date the listing has as many rows as the table and holds every notice |
| `NoticeRoutes.Filled` | src/routes/notice.ts:64 | JavaScript truthiness of a body field: absent and `""` are falsy, any other string is truthy |
| `NoticeRoutes.CreateNotice` | src/routes/notice.ts:58-98 | teachers and admins only. 400 unless both title and content are non-empty. 500 when the requester has no user row (the foreign key fails). 201 exactly otherwise, adding one notice whose author is the requester, with `important` false when absent. Every refusal adds nothing. The user table is unchanged |
| `NoticeRoutes.DeleteNotice` | src/routes/notice.ts:100-133 | any authenticated user. 404 for an unknown id. 403 unless the requester is an admin or the notice's author. 200 exactly otherwise, removing just that notice |
| `AuthRoutes.Register` | src/routes/auth.ts:11-59 | 409 exactly when the email is taken, adding no user. Otherwise 201 and a new STUDENT row, holding the hash of the given password, whatever role the body names. The session and token carry the new id and STUDENT. The admin count and unique emails are kept |
| `AuthRoutes.SessionOf` | src/routes/auth.ts:42-54 | the response names the account's id, name, email and role, and the token's payload carries the same id and role; login answers with the same shape at src/routes/auth.ts:82-94 |
| `AuthRoutes.UserWithEmail` | src/routes/auth.ts:67-69 | finds a user exactly when one has the email, and the user found has it |
| `AuthRoutes.Login` | src/routes/auth.ts:62-99 | 200 exactly when the email exists, whatever the password; 401 otherwise. The session and token carry the stored user's id and role. The store is not touched |
| `AuthRoutes.RegisteredUserLogsIn` | src/routes/auth.ts:32-39 | after registration adds an account, logging in with its email and any password returns that account's session |
| `AuthRoutes.SessionTokenAuthenticates` | src/routes/auth.ts:81-93 | a login token sent back as `"<scheme> <token>"` authenticates as the stored account with its stored role |
| `Scenarios.AdminCeilingAndFloor` | src/routes/user.ts:51-58 | create two admins (201, 201); a third is refused (403); delete one (200); deleting the last is refused (403); demoting it succeeds (200) and leaves no admin |
| `Scenarios.CreateTwoAdmins` | src/routes/user.ts:51-58 | on an empty store two admin creations succeed and the third is refused at the ceiling |
| `Scenarios.RemoveBothAdmins` | src/routes/user.ts:152-159 | with two admins: the first delete succeeds, the last-admin delete is refused, the demotion succeeds and no admin is left |
| `Scenarios.DeleteAuthorRefused` | src/routes/user.ts:163-170 | an admin creates a teacher (201), the teacher posts a notice (201), deleting the teacher answers 500, and the listing still shows the notice with the teacher's name |
| `Scenarios.AddTeacher` | src/routes/user.ts:66-82 | on an empty store an admin's creation of a teacher succeeds and adds exactly that user |
| `Scenarios.PostAsTeacher` | src/routes/notice.ts:68-83 | a teacher's notice is created with the teacher as its author |
| `Scenarios.RegisterThenLogin` | src/routes/auth.ts:11-99 | register (201), register again with the same email (409), then log in with a wrong password, which succeeds as a STUDENT |

## Left out

- Tokens are not checked against the store. A verified token is trusted even
  when its account has since been deleted or its role changed. This follows
  the source as written.
- `jwt.sign`, `jwt.verify` and the 7-day expiry are the `Signer` and
  `Verifier` parameters. `SessionTokenAuthenticates` requires that verification
  accepts what signing produces and that signed tokens contain no space.
- bcrypt's `genSalt` and `hash` are the `Hasher` parameter, one per call,
  since a fresh salt makes each hash differ. The password's value plays no
  part in any decision, since login does not compare it.
- Ids are natural numbers issued by counters in `Store`; the source's string
  ids come from the database. Route ids that do not parse are not modelled.
- `createdAt` and the query dates are integer timestamps; the parsing done by
  `new Date(string)` is not modelled. An empty or absent query parameter is
  None.
- The order `findMany` returns users in is unspecified in the source. The
  model lists users by increasing id.
- Two notices with the same `createdAt` are listed larger id first; the source
  leaves this tie open.
- UserRoutes.DeleteUser: assumes the notice's `author` is a required relation
  with the default on-delete behaviour, which refuses to remove a user who is
  still an author; the delete then throws and the catch answers 500 with
  nothing removed. The database schema is not part of the source modelled
  here. Under a cascading relation the user's notices would be removed with
  the user instead. Under this assumption no handler leaves a notice whose
  author is gone.
- A notice POST whose requester has no row in the user table (deleted after
  the token was issued) is answered with 500 and adds nothing, standing for
  the foreign-key failure. All other 500 answers of the `catch` blocks
  (database faults, role strings outside the enum) are left out, because
  roles are a closed datatype and the store does not fail.
- Response bodies are reduced to the fields the policy decides. Error message
  texts and logging are left out.
- Concurrency is left out: each handler runs atomically. The race between an
  admin-count read and the write that follows it in concurrent requests is not
  modelled.
- `prisma/seed.ts`, the bootstrap script, is not part of this model.
