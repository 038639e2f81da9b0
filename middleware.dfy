/** The two Express middlewares in front of the protected routes:
    `authenticateToken`, which takes the token from the Authorization header
    and, when it verifies, sets `req.user`; and `authorizeRoles`, which lets a
    request through only when `req.user`'s role is among the allowed ones. */
module Middleware {
  import opened Domain

  /** JWT verification with the server's secret, including the expiry check:
      the decoded payload, or None when `jwt.verify` throws. */
  type Verifier = string -> Option<Claims>

  /** What a middleware does with a request: call `next()` or answer it. */
  datatype Step = Next | Halt(status: Status)

  /** What a chain of middlewares does: hand `req.user` to the handler, or answer. */
  datatype Gate = Admitted(claims: Claims) | Rejected(status: Status)

  /** JavaScript's `s.split(' ')`: the pieces between single spaces, empty ones included. */
  function Split(s: string): (fields: seq<string>)
    ensures |fields| >= 1
    ensures forall i :: 0 <= i < |fields| ==> ' ' !in fields[i]
  {
    if s == [] then [""]
    else
      var rest := Split(s[1..]);
      if s[0] == ' ' then [""] + rest
      else [[s[0]] + rest[0]] + rest[1..]
  }

  /** JavaScript's `fields.join(' ')`. */
  function Join(fields: seq<string>): string
    requires |fields| >= 1
  {
    if |fields| == 1 then fields[0] else fields[0] + " " + Join(fields[1..])
  }

  /** Joining the pieces back gives the header again: Split loses nothing. */
  lemma {:induction false} JoinSplit(s: string)
    ensures Join(Split(s)) == s
  {
    if s != [] {
      var rest := Split(s[1..]);
      JoinSplit(s[1..]);
      if s[0] == ' ' {
        assert Split(s) == [""] + rest;
        assert Join(Split(s)) == "" + " " + Join(rest);
        assert s == [' '] + s[1..];
      } else if |rest| == 1 {
        assert Split(s) == [[s[0]] + rest[0]];
        assert s == [s[0]] + s[1..];
      } else {
        assert Split(s)[1..] == rest[1..];
        assert Join(rest) == rest[0] + " " + Join(rest[1..]);
        assert s == [s[0]] + s[1..];
      }
    }
  }

  /** A word without spaces followed by more text stays glued to the first piece of that text. */
  lemma {:induction false} SplitPrefix(w: string, t: string)
    requires ' ' !in w
    ensures Split(w + t) == [w + Split(t)[0]] + Split(t)[1..]
  {
    if w != [] {
      var fields := Split(t);
      assert (w + t)[1..] == w[1..] + t;
      SplitPrefix(w[1..], t);
      var rest := Split(w[1..] + t);
      assert rest[0] == w[1..] + fields[0] && rest[1..] == fields[1..];
      assert Split(w + t) == [[w[0]] + rest[0]] + rest[1..];
      assert [w[0]] + (w[1..] + fields[0]) == w + fields[0];
    } else {
      var fields := Split(t);
      assert w + t == t && w + fields[0] == fields[0];
      assert fields == [fields[0]] + fields[1..];
    }
  }

  /** Splitting pieces joined by spaces gives the pieces back, when none of them holds a space. */
  lemma {:induction false} SplitJoin(fields: seq<string>)
    requires |fields| >= 1
    requires forall i :: 0 <= i < |fields| ==> ' ' !in fields[i]
    ensures Split(Join(fields)) == fields
  {
    if |fields| == 1 {
      SplitPrefix(fields[0], "");
      assert fields[0] + "" == fields[0];
    } else {
      var tail := Join(fields[1..]);
      SplitJoin(fields[1..]);
      assert Split(" " + tail) == [""] + Split(tail) by {
        assert (" " + tail)[1..] == tail;
      }
      assert Join(fields) == fields[0] + (" " + tail);
      SplitPrefix(fields[0], " " + tail);
      assert fields[0] + "" == fields[0];
      assert fields == [fields[0]] + fields[1..];
    }
  }

  /** `authHeader && authHeader.split(' ')[1]`, kept only when truthy: the second
      piece of the header, whatever its first word is. */
  function TokenOf(authorization: Option<string>): (token: Option<string>)
    ensures authorization.None? || authorization == Some("") ==> token.None?
    ensures token.Some? ==> token.value != "" && ' ' !in token.value
  {
    match authorization
    case None => None
    case Some(header) =>
      if header == "" then None
      else
        var fields := Split(header);
        if |fields| >= 2 && fields[1] != "" then Some(fields[1]) else None
  }

  /** The token is exactly the second space-separated piece, when that piece is non-empty. */
  lemma TokenOfFields(fields: seq<string>)
    requires |fields| >= 1
    requires forall i :: 0 <= i < |fields| ==> ' ' !in fields[i]
    ensures TokenOf(Some(Join(fields))) == if |fields| >= 2 && fields[1] != "" then Some(fields[1]) else None
  {
    SplitJoin(fields);
  }

  /** "<scheme> <token>" yields the token for any scheme, not only "Bearer". */
  lemma TokenOfScheme(scheme: string, token: string)
    requires ' ' !in scheme && ' ' !in token && token != ""
    ensures TokenOf(Some(scheme + " " + token)) == Some(token)
  {
    TokenOfFields([scheme, token]);
  }

  /** A header of one word (no space) carries no token. */
  lemma TokenOfOneWord(header: string)
    requires ' ' !in header
    ensures TokenOf(Some(header)) == None
  {
    TokenOfFields([header]);
  }

  /** What `authenticateToken` decides: 401 without a token, 403 when the token
      does not verify, otherwise the decoded claims. */
  function Authenticate(authorization: Option<string>, verify: Verifier): (g: Gate)
    ensures g == Rejected(Unauthorized) <==> TokenOf(authorization).None?
    ensures g == Rejected(Forbidden) <==> TokenOf(authorization).Some? && verify(TokenOf(authorization).value).None?
    ensures g.Admitted? <==> TokenOf(authorization).Some? && verify(TokenOf(authorization).value).Some?
    ensures g.Admitted? ==> Some(g.claims) == verify(TokenOf(authorization).value)
  {
    match TokenOf(authorization)
    case None => Rejected(Unauthorized)
    case Some(token) =>
      match verify(token)
      case None => Rejected(Forbidden)
      case Some(claims) => Admitted(claims)
  }

  /** `authorizeRoles(...roles)`: 401 without `req.user`, 403 when its role is not allowed. */
  function AuthorizeRoles(roles: seq<Role>, user: Option<Claims>): (step: Step)
    ensures step == Next <==> user.Some? && user.value.role in roles
    ensures user.None? ==> step == Halt(Unauthorized)
    ensures user.Some? && user.value.role !in roles ==> step == Halt(Forbidden)
  {
    if user.None? then Halt(Unauthorized)
    else if user.value.role !in roles then Halt(Forbidden)
    else Next
  }

  /** `authenticateToken` followed by `authorizeRoles(...roles)`. The 401 comes only
      from a missing token; a token that fails to verify and a role that is not
      allowed both give 403; a request that passes carries the verified claims. */
  function Admission(authorization: Option<string>, verify: Verifier, roles: seq<Role>): (g: Gate)
    ensures g == Rejected(Unauthorized) <==> TokenOf(authorization).None?
    ensures g == Rejected(Forbidden) <==>
      TokenOf(authorization).Some? &&
      (verify(TokenOf(authorization).value).None? || verify(TokenOf(authorization).value).value.role !in roles)
    ensures g.Admitted? <==> Authenticate(authorization, verify).Admitted? && Authenticate(authorization, verify).claims.role in roles
    ensures g.Admitted? ==> g == Authenticate(authorization, verify) && g.claims.role in roles
  {
    match Authenticate(authorization, verify)
    case Rejected(status) => Rejected(status)
    case Admitted(claims) =>
      match AuthorizeRoles(roles, Some(claims))
      case Halt(status) => Rejected(status)
      case Next => Admitted(claims)
  }

  /** An incoming request: its Authorization header and the `req.user` that
      `authenticateToken` fills in. */
  class Request {
    const authorization: Option<string>
    var user: Option<Claims>

    constructor (authorization: Option<string>)
      ensures this.authorization == authorization && user == None
    {
      this.authorization := authorization;
      user := None;
    }

    /** `authenticateToken`: answers 401 or 403 and leaves `req.user` alone, or
        sets `req.user` to the decoded claims and calls `next()`. */
    method AuthenticateToken(verify: Verifier) returns (step: Step)
      modifies this`user
      ensures Authenticate(authorization, verify).Rejected? ==>
        step == Halt(Authenticate(authorization, verify).status) && user == old(user)
      ensures Authenticate(authorization, verify).Admitted? ==>
        step == Next && user == Some(Authenticate(authorization, verify).claims)
    {
      var token := TokenOf(authorization);
      if token.None? {
        return Halt(Unauthorized);
      }
      var decoded := verify(token.value);
      if decoded.None? {
        return Halt(Forbidden);
      }
      user := Some(Claims(decoded.value.userId, decoded.value.role));
      step := Next;
    }
  }

  /** The middleware chain `authenticateToken, authorizeRoles(...roles)` as the router runs it. */
  method Admit(req: Request, verify: Verifier, roles: seq<Role>) returns (gate: Gate)
    modifies req`user
    ensures gate == Admission(req.authorization, verify, roles)
    ensures gate.Admitted? ==> req.user == Some(gate.claims)
  {
    var step := req.AuthenticateToken(verify);
    if step.Halt? {
      return Rejected(step.status);
    }
    step := AuthorizeRoles(roles, req.user);
    if step.Halt? {
      return Rejected(step.status);
    }
    gate := Admitted(req.user.value);
  }
}
