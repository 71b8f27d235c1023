/** `POST /api/auth/logout`: revoke the session named by the cookie. */
module LogoutApi {
  import opened Wrappers
  import opened AuthStore
  import opened Http

  /** Always `{success: true}`. With a non-empty session cookie `t`: row `t`
      is deleted (no other row, not even another session of the same user),
      the cookie is cleared on path "/", and `t` never validates again.
      Without one, nothing changes. */
  method Logout(db: Db, cookies: Cookies) returns (reply: Reply)
    modifies db, cookies
    ensures reply == Ok
    ensures db.users == old(db.users) && db.nextId == old(db.nextId)
    ensures old(SessionsOwned(db.users, db.sessions)) ==> SessionsOwned(db.users, db.sessions)
    ensures Blank(SessionCookieValue(old(cookies.values))) ==> unchanged(db, cookies)
    ensures !Blank(SessionCookieValue(old(cookies.values))) ==>
              var token := SessionCookieValue(old(cookies.values)).value;
              && db.sessions == old(db.sessions) - {token}
              && cookies.values == old(cookies.values) - {SessionCookieName}
              && cookies.outgoing == old(cookies.outgoing)[SessionCookieName := DeleteCookie("/")]
              && (forall at :: ValidateSession(db.users, db.sessions, Some(token), at) == None)
  {
    var token := SessionCookieValue(cookies.values);
    if !Blank(token) {
      db.DeleteSession(token.value);
      cookies.values := cookies.values - {SessionCookieName};
      cookies.outgoing := cookies.outgoing[SessionCookieName := DeleteCookie("/")];
    }
    reply := Ok;
  }
}
