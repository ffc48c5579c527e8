/** The bearer-token gate in front of the notes routes
    (backend/src/middleware/auth.ts). Token verification is a parameter
    `verify`: it stands for `jwt.verify` with the server's secret, giving the
    id carried by a well-signed, unexpired token and `None` where the library
    throws. */
module TokenGate {
  import opened Options
  import opened Text
  import opened UserStore

  /** `req.headers.authorization?.split(" ")[1]`: the second space-separated
      piece of the header, if there is one. */
  function BearerToken(header: Option<string>): (t: Option<string>)
    ensures header.None? ==> t.None?
    ensures header.Some? ==> (t.Some? <==> ' ' in header.value)
    ensures t.Some? ==> ' ' !in t.value
    ensures t.Some? ==>
      var h := header.value;
      exists i :: 0 <= i < |h| && h[i] == ' ' && ' ' !in h[..i]
        && i + 1 + |t.value| <= |h| && h[i + 1..i + 1 + |t.value|] == t.value
        && (i + 1 + |t.value| == |h| || h[i + 1 + |t.value|] == ' ')
  {
    match header
    case None => None
    case Some(h) =>
      var parts := Split(h, ' ');
      SplitFirst(h, ' ');
      if |parts| >= 2 then
        SecondPiece(h, ' ', IndexOf(h, ' ').value);
        Some(parts[1])
      else
        None
  }

  /** A header `scheme + " " + token`, both parts free of spaces, yields the token. */
  lemma BearerTokenOfHeader(scheme: string, token: string)
    requires ' ' !in scheme && ' ' !in token
    ensures BearerToken(Some(scheme + " " + token)) == Some(token)
  {
    SplitJoin([scheme, token], ' ');
    assert Join([scheme, token], ' ') == scheme + " " + token by {
      assert [scheme, token][1..] == [token];
    }
  }

  /** What the gate does with a request: pass it on with `req.user` set (the
      one call to `next`), or answer it with an error. */
  datatype Decision = Allow(user: User) | Deny(status: int, error: string)

  /** `jwtMiddleware`. */
  function Gate(users: seq<User>, header: Option<string>, verify: string -> Option<UserId>): (d: Decision)
    ensures d.Deny? ==> d.status == 401
    ensures d == Deny(401, "No token provided") <==> BearerToken(header) in {None, Some("")}
    ensures d == Deny(401, "Token verification failed") <==>
      BearerToken(header).Some? && BearerToken(header).value != "" && verify(BearerToken(header).value).None?
    ensures d == Deny(401, "Invalid token") <==>
      && BearerToken(header).Some? && BearerToken(header).value != ""
      && verify(BearerToken(header).value).Some?
      && FindById(users, verify(BearerToken(header).value).value).None?
    ensures d.Allow? ==>
      && BearerToken(header).Some? && BearerToken(header).value != ""
      && verify(BearerToken(header).value) == Some(d.user.id)
      && d.user in users
    ensures d.Allow? || d.error in {"No token provided", "Token verification failed", "Invalid token"}
    ensures BearerToken(header).Some? && BearerToken(header).value != ""
              && verify(BearerToken(header).value).Some?
              && FindById(users, verify(BearerToken(header).value).value).Some? ==>
              d == Allow(FindById(users, verify(BearerToken(header).value).value).value)
  {
    match BearerToken(header)
    case None => Deny(401, "No token provided")
    case Some(token) =>
      if token == "" then Deny(401, "No token provided")
      else match verify(token)
        case None => Deny(401, "Token verification failed")
        case Some(id) =>
          match FindById(users, id)
          case None => Deny(401, "Invalid token")
          case Some(user) => Allow(user)
  }

  /** A request carrying `Bearer <token>` for a token that verifies to the id
      of a stored user is let through as that user. */
  lemma GateAdmitsValidToken(users: seq<User>, u: User, token: string, verify: string -> Option<UserId>)
    requires Valid(users) && u in users
    requires token != "" && ' ' !in token
    requires verify(token) == Some(u.id)
    ensures Gate(users, Some("Bearer " + token), verify) == Allow(u)
  {
    BearerTokenOfHeader("Bearer", token);
    assert "Bearer" + " " + token == "Bearer " + token;
    FindByIdInValid(users, u);
  }
}
