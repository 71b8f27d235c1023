/** `POST /api/auth/login`: check the credentials, issue a session and set
    the session cookie. */
module LoginApi {
  import opened Wrappers
  import opened AuthStore
  import opened Http

  /** The JSON body of the request. */
  datatype Credentials = Credentials(username: Option<string>, password: Option<string>)

  /** Seven days, in seconds. */
  const SessionCookieMaxAge: int := 7 * 24 * 60 * 60

  /** The cookie a successful login sets. */
  function SessionCookie(token: string): CookieDirective
  {
    SetCookie(token, "/", true, "lax", SessionCookieMaxAge)
  }

  const BadCredentials: Reply := Failure(401, "Invalid username or password")

  /** The stored user named `name` accepts `password`. */
  ghost predicate Accepts(db: Db, name: string, password: string)
    reads db
  {
    var found := UserNamed(db.users, name);
    found.Some? && VerifyPassword(db.kdf, password, db.users[found.value].passwordHash, db.users[found.value].salt)
  }

  /** Checks in this order: a readable body (500), both fields present
      (400), a user with that name and a matching password (401, one reply
      for both causes). Then one new session for that user, with its token
      in an HttpOnly, SameSite=Lax cookie on path "/" for seven days; the
      token resolves to that user straight away. A token that collides with
      an existing one fails the insert (500). */
  method Login(db: Db, cookies: Cookies, body: Option<Credentials>, random: Entropy32, now: int)
    returns (reply: Reply)
    requires db.Valid()
    modifies db, cookies
    ensures db.Valid()
    ensures db.users == old(db.users) && db.nextId == old(db.nextId)
    ensures old(SessionsOwned(db.users, db.sessions)) ==> SessionsOwned(db.users, db.sessions)
    ensures body.None? ==> reply == InternalError && unchanged(db, cookies)
    ensures body.Some? && (Blank(body.value.username) || Blank(body.value.password)) ==>
              reply == Failure(400, "Username and password are required") && unchanged(db, cookies)
    ensures body.Some? && !Blank(body.value.username) && !Blank(body.value.password) ==>
              var name, password := body.value.username.value, body.value.password.value;
              var token := GenerateSessionId(random);
              && (!old(Accepts(db, name, password)) ==> reply == BadCredentials && unchanged(db, cookies))
              && (old(Accepts(db, name, password)) && token in old(db.sessions) ==>
                    reply == InternalError && unchanged(db, cookies))
              && (old(Accepts(db, name, password)) && token !in old(db.sessions) ==>
                    var id := UserNamed(db.users, name).value;
                    && reply == Reply(200, SuccessUser(name))
                    && db.sessions == old(db.sessions)[token := SessionRow(id, now + SessionLifetimeMs)]
                    && cookies.values == old(cookies.values)[SessionCookieName := token]
                    && cookies.outgoing == old(cookies.outgoing)[SessionCookieName := SessionCookie(token)]
                    && ValidateSession(db.users, db.sessions, Some(token), now) == Some(Identity(id, name)))
  {
    if body.None? {
      return InternalError;
    }
    var request := body.value;
    if Blank(request.username) || Blank(request.password) {
      return Failure(400, "Username and password are required");
    }
    var name, password := request.username.value, request.password.value;
    var found := db.FindByUsername(name);
    if found.None? {
      return BadCredentials;
    }
    var user := db.users[found.value];
    if !VerifyPassword(db.kdf, password, user.passwordHash, user.salt) {
      return BadCredentials;
    }
    var token := db.CreateSession(found.value, random, now);
    if token.None? {
      return InternalError;
    }
    cookies.values := cookies.values[SessionCookieName := token.value];
    cookies.outgoing := cookies.outgoing[SessionCookieName := SessionCookie(token.value)];
    reply := Reply(200, SuccessUser(user.username));
  }
}
