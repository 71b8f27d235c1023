/** The server hook every request passes through: it resolves the session
    cookie to a user, records that user for the route handlers, and then
    lets the request through, answers 401, or redirects. */
module Gate {
  import opened Wrappers
  import opened AuthStore
  import opened Http
  import opened Strings

  /** What the hook does with the request. */
  datatype Decision =
    | Proceed                                 // `resolve(event)`
    | Respond(reply: Reply)                   // a JSON reply built by the hook itself
    | Redirect(status: int, location: string) // `throw redirect(status, location)`

  const LoginPage: string := "/login"
  const LoginEndpoint: string := "/api/auth/login"
  const PublicPaths: seq<string> := [LoginPage, LoginEndpoint]

  /** Some public path is a prefix of `path` (a prefix test, not an
      equality test). */
  predicate IsPublicPath(path: string)
  {
    exists p :: p in PublicPaths && StartsWith(path, p)
  }

  predicate IsApiPath(path: string)
  {
    StartsWith(path, "/api/")
  }

  const ToLogin: Decision := Redirect(303, LoginPage)
  const ToDashboard: Decision := Redirect(303, "/")

  /** The hook's decision once the session cookie has been resolved to
      `user` (None when there is no valid session). */
  function Decide(user: Option<Identity>, path: string): (d: Decision)
    ensures d == Respond(Unauthorized) <==> user.None? && !IsPublicPath(path) && IsApiPath(path)
    ensures d == ToLogin <==> user.None? && !IsPublicPath(path) && !IsApiPath(path)
    ensures d == ToDashboard <==> user.Some? && path == LoginPage
    ensures d.Proceed? <==> (user.None? && IsPublicPath(path)) || (user.Some? && path != LoginPage)
  {
    if user.None? && !IsPublicPath(path) then
      if IsApiPath(path) then Respond(Unauthorized) else ToLogin
    else if user.Some? && path == LoginPage then
      ToDashboard
    else
      Proceed
  }

  /** A request reaches a route that is not public only with a valid
      session. */
  lemma ProtectedRoutesNeedSession(user: Option<Identity>, path: string)
    requires !IsPublicPath(path)
    ensures Decide(user, path).Proceed? <==> user.Some?
  {
    if path == LoginPage {
      assert StartsWith(path, LoginPage);
    }
  }

  /** Anonymous requests are never redirected away from the login page or
      the login endpoint, so signing in is always reachable. */
  lemma LoginAlwaysReachable(path: string)
    requires path == LoginPage || path == LoginEndpoint
    ensures IsPublicPath(path)
    ensures Decide(None, path) == Proceed
  {
    assert StartsWith(path, path);
  }

  /** The redirect for a signed-in user is an exact match on "/login":
      pages below it pass, because the public-path test is a prefix test. */
  lemma SignedInBelowLoginPageProceeds(user: Identity, rest: string)
    requires rest != ""
    ensures IsPublicPath(LoginPage + rest)
    ensures Decide(Some(user), LoginPage + rest) == Proceed
  {
    var path := LoginPage + rest;
    assert path[..|LoginPage|] == LoginPage;
    assert LoginPage in PublicPaths;
  }

  /** The user-management API answers 401, not a redirect, without a
      session. */
  lemma UsersApiWithoutSessionUnauthorized()
    ensures Decide(None, "/api/auth/users") == Respond(Unauthorized)
  {
    var path := "/api/auth/users";
    assert path[..5] == "/api/";
    assert !StartsWith(path, LoginPage) by { assert path[1] != LoginPage[1]; }
    assert !StartsWith(path, LoginEndpoint) by { assert path[10] != LoginEndpoint[10]; }
  }

  /** The route handlers' view of the request: `event.locals`. */
  class Locals {
    var user: Option<Identity>

    constructor ()
      ensures user == None
    {
      user := None;
    }
  }

  /** `handle`: resolves the "session" cookie against the store at time
      `now`, records the result in `locals.user` and decides. The store and
      the cookies are only read. */
  method Handle(db: Db, cookies: Cookies, locals: Locals, path: string, now: int)
    returns (d: Decision)
    modifies locals
    ensures locals.user == ValidateSession(db.users, db.sessions, SessionCookieValue(cookies.values), now)
    ensures d == Decide(locals.user, path)
  {
    var token := SessionCookieValue(cookies.values);
    locals.user := ValidateSession(db.users, db.sessions, token, now);
    if locals.user.None? && !IsPublicPath(path) {
      if IsApiPath(path) {
        return Respond(Unauthorized);
      }
      return ToLogin;
    }
    if locals.user.Some? && path == LoginPage {
      return ToDashboard;
    }
    return Proceed;
  }

  /** The cookie set by a successful login at time `issued` carries the
      user through the hook until seven days later, and not after. */
  lemma IssuedCookiePassesGate(users: map<int, UserRow>, sessions: map<string, SessionRow>,
                               values: map<string, string>, token: string, id: int,
                               issued: int, now: int, path: string)
    requires token != "" && id in users
    requires token in sessions && sessions[token] == SessionRow(id, issued + SessionLifetimeMs)
    requires SessionCookieName in values && values[SessionCookieName] == token
    requires path != LoginPage && !IsPublicPath(path)
    ensures Decide(ValidateSession(users, sessions, SessionCookieValue(values), now), path) == Proceed
            <==> now < issued + SessionLifetimeMs
  {
    SessionLiveExactlyBeforeExpiry(users, sessions, token, now);
  }
}
