/**
  The session gate in front of every page: where the token is read from,
  what the JWT check accepts, and what Middleware and AdminOnly answer.

  The signature check and the claims check of the JWT library are an
  oracle: `decode` maps a token to the header's signing family, whether the
  signature and the claims (expiry) were accepted, and the uid claim, or to
  None when the token does not parse. The users table is a map from id to
  the row.
 */
module Auth {
  import opened Wrappers
  import opened GoStrings

  /** A row of the users table, as the gate reads it. */
  datatype User = User(id: int, username: string, fullName: string, email: string, isAdmin: bool, isActive: bool)

  /** The name shown for a user: the full name, or the username when no full name is set. */
  function DisplayName(u: User): (r: string)
    ensures u.fullName != "" ==> r == u.fullName
    ensures r == u.fullName || r == u.username
    ensures r == "" <==> u.fullName == "" && u.username == ""
  {
    if u.fullName != "" then u.fullName else u.username
  }

  // ---------------------------------------------------------------------------
  // The request and the token

  /**
    What the gate reads of a request: the value of the first "tok" cookie
    (None when there is none), and the Authorization and HX-Request headers
    ("" when absent, as the header map's Get answers).
   */
  datatype Request = Request(cookie: Option<string>, authorization: string, hxRequest: string)

  const BearerPrefix: string := "Bearer "

  /**
    cookieToken: the "tok" cookie whenever there is one, even an empty one;
    otherwise the text after "Bearer " in the Authorization header (section
    2.1 of RFC 6750); otherwise no token.
   */
  function CookieToken(req: Request): (r: string)
    ensures req.cookie.Some? ==> r == req.cookie.value
    ensures req.cookie.None? && r != "" ==> req.authorization == BearerPrefix + r
    ensures req.cookie.None? && !HasPrefix(req.authorization, BearerPrefix) ==> r == ""
  {
    if req.cookie.Some? then req.cookie.value
    else if HasPrefix(req.authorization, BearerPrefix) then req.authorization[|BearerPrefix|..]
    else ""
  }

  /** A bearer token sent without a cookie is read back unchanged. */
  lemma BearerRoundTrip(tok: string, hx: string)
    ensures CookieToken(Request(None, BearerPrefix + tok, hx)) == tok
  {
    assert (BearerPrefix + tok)[..|BearerPrefix|] == BearerPrefix;
    assert (BearerPrefix + tok)[|BearerPrefix|..] == tok;
  }

  /** A cookie shadows the header: with a cookie, the Authorization header is never read. */
  lemma CookieShadowsHeader(req: Request, other: string)
    requires req.cookie.Some?
    ensures CookieToken(req.(authorization := other)) == CookieToken(req)
  {
  }

  // ---------------------------------------------------------------------------
  // ParseToken

  /**
    What the JWT library makes of a token: whether its header names an HMAC
    signing method, whether the signature under the server's secret and the
    registered claims were accepted, and the uid claim.
   */
  datatype Jwt = Jwt(hmac: bool, verified: bool, uid: int)

  datatype TokenError = Malformed | UnexpectedMethod | Rejected

  /** ParseToken: the uid of a well-formed, HMAC-signed, accepted token; an error otherwise. */
  function ParseToken(decode: string -> Option<Jwt>, s: string): (r: Result<int, TokenError>)
    ensures r.Ok? <==> decode(s).Some? && decode(s).value.hmac && decode(s).value.verified
    ensures r.Ok? ==> r.value == decode(s).value.uid
    ensures decode(s).Some? && !decode(s).value.hmac ==> r == Err(UnexpectedMethod)
  {
    match decode(s)
    case None => Err(Malformed)
    case Some(t) =>
      if !t.hmac then Err(UnexpectedMethod)
      else if !t.verified then Err(Rejected)
      else Ok(t.uid)
  }

  // ---------------------------------------------------------------------------
  // Replies

  const LoginPath: string := "/login"

  /**
    A refusal: a redirect to the login page (a 302 with Location, or for an
    htmx request a 401 with HX-Redirect), or an error status with its text.
   */
  datatype Denial =
    | Redirect(code: nat, header: string, location: string)
    | Error(code: nat, message: string)

  /** redirect: an htmx request gets 401 and HX-Redirect, any other a 302 to the login page. */
  function RedirectReply(req: Request): (r: Denial)
    ensures r.Redirect? && r.location == LoginPath
    ensures r.code == 401 <==> req.hxRequest == "true"
    ensures r.code == 401 || r.code == 302
    ensures r.header == (if r.code == 401 then "HX-Redirect" else "Location")
  {
    if req.hxRequest == "true" then Redirect(401, "HX-Redirect", LoginPath)
    else Redirect(302, "Location", LoginPath)
  }

  /** A Set-Cookie the gate writes: name, value, path and max-age in seconds. */
  datatype Cookie = Cookie(name: string, value: string, path: string, maxAge: int)

  const DaySeconds: int := 24 * 60 * 60

  /** SetCookie: the session cookie, valid for a day on every path. */
  function SessionCookie(tok: string): Cookie {
    Cookie("tok", tok, "/", DaySeconds)
  }

  /** clearCookie: an expired cookie of the same name and path. */
  const ClearCookie: Cookie := Cookie("tok", "", "/", -1)

  /**
    The clearing cookie addresses the session cookie (same name and path)
    and expires it at once, while the session cookie lives a day.
   */
  lemma ClearMatchesSession(tok: string)
    ensures var s := SessionCookie(tok);
      && ClearCookie.name == s.name && ClearCookie.path == s.path
      && ClearCookie.maxAge < 0 < s.maxAge && s.maxAge == 86400
  {
  }

  // ---------------------------------------------------------------------------
  // Middleware and AdminOnly

  /** The gate's answer: refuse (clearing the cookie or not) with a reply, or serve the user. */
  datatype Outcome = Refuse(clearCookie: bool, reply: Denial) | Serve(user: User)

  /** Middleware: token, then ParseToken, then the user's row, which must be active. */
  function Middleware(req: Request, decode: string -> Option<Jwt>, users: map<int, User>): (r: Outcome)
    ensures r.Refuse? ==> r.reply == RedirectReply(req)
    ensures r.Refuse? ==> (r.clearCookie <==> CookieToken(req) != "")
    ensures r.Serve? ==> r.user.isActive
  {
    var tok := CookieToken(req);
    if tok == "" then Refuse(false, RedirectReply(req))
    else match ParseToken(decode, tok)
      case Err(_) => Refuse(true, RedirectReply(req))
      case Ok(uid) =>
        if uid !in users || !users[uid].isActive then Refuse(true, RedirectReply(req))
        else Serve(users[uid])
  }

  /** The user a request authenticates as: a presented, accepted token naming an active user. */
  predicate Authenticates(req: Request, decode: string -> Option<Jwt>, users: map<int, User>, u: User) {
    var tok := CookieToken(req);
    && tok != ""
    && decode(tok).Some? && decode(tok).value.hmac && decode(tok).value.verified
    && decode(tok).value.uid in users
    && users[decode(tok).value.uid] == u
    && u.isActive
  }

  /** Middleware serves exactly the user the request authenticates as. */
  lemma MiddlewareServes(req: Request, decode: string -> Option<Jwt>, users: map<int, User>, u: User)
    ensures Middleware(req, decode, users) == Serve(u) <==> Authenticates(req, decode, users, u)
  {
  }

  /** A request nobody authenticates as is refused, and the cookie is cleared exactly when a token was sent. */
  lemma MiddlewareRefuses(req: Request, decode: string -> Option<Jwt>, users: map<int, User>)
    requires forall u :: !Authenticates(req, decode, users, u)
    ensures Middleware(req, decode, users) == Refuse(CookieToken(req) != "", RedirectReply(req))
  {
    var r := Middleware(req, decode, users);
    if r.Serve? {
      MiddlewareServes(req, decode, users, r.user);
      assert false;
    }
  }

  /** An empty "tok" cookie shadows even an accepted bearer token: the request is redirected. */
  lemma EmptyCookieRefuses(req: Request, decode: string -> Option<Jwt>, users: map<int, User>)
    requires req.cookie == Some("")
    ensures Middleware(req, decode, users) == Refuse(false, RedirectReply(req))
  {
  }

  const ForbiddenText: string := "403 Forbidden"

  /** AdminOnly: Middleware's refusals unchanged, then 403 for a user who is not an admin. */
  function AdminOnly(req: Request, decode: string -> Option<Jwt>, users: map<int, User>): (r: Outcome)
    ensures r.Serve? ==> r.user.isAdmin
    ensures r.Refuse? && r.reply.Error? ==> r.reply == Error(403, ForbiddenText) && !r.clearCookie
  {
    match Middleware(req, decode, users)
    case Refuse(c, d) => Refuse(c, d)
    case Serve(u) => if !u.isAdmin then Refuse(false, Error(403, ForbiddenText)) else Serve(u)
  }

  /**
    AdminOnly serves exactly the admins Middleware serves, answers 403 to
    the non-admins it serves, and refuses everyone else as Middleware does.
   */
  lemma AdminOnlyOverMiddleware(req: Request, decode: string -> Option<Jwt>, users: map<int, User>)
    ensures var m := Middleware(req, decode, users);
      var a := AdminOnly(req, decode, users);
      && (a.Serve? <==> m.Serve? && m.user.isAdmin)
      && (a.Serve? ==> a == m)
      && (m.Serve? && !m.user.isAdmin ==> a == Refuse(false, Error(403, ForbiddenText)))
      && (m.Refuse? ==> a == m)
  {
  }
}
