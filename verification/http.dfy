/** What the handlers exchange with the web framework: JSON replies, the
    request's cookies and the Set-Cookie directives of the response. */
module Http {
  import opened Wrappers
  import opened AuthStore

  /** The JSON body of a reply. */
  datatype Payload =
    | Error(message: string)               // {"error": message}
    | Success                              // {"success": true}
    | SuccessUser(username: string)        // {"success": true, "username": ...}
    | UserList(users: seq<UserInfo>)       // {"users": [...]}

  datatype Reply = Reply(status: int, payload: Payload)

  function Failure(status: int, message: string): Reply
  {
    Reply(status, Error(message))
  }

  const Ok: Reply := Reply(200, Success)
  const Unauthorized: Reply := Failure(401, "Unauthorized")
  const InternalError: Reply := Failure(500, "Internal server error")

  /** A JSON body field that JavaScript treats as false: absent or "". */
  predicate Blank(field: Option<string>)
  {
    field.None? || field.value == ""
  }

  const SessionCookieName: string := "session"

  /** What `cookies.set` and `cookies.delete` put in the response. */
  datatype CookieDirective =
    | SetCookie(value: string, path: string, httpOnly: bool, sameSite: string, maxAgeSeconds: int)
    | DeleteCookie(path: string)

  /** The request's cookie jar: the values `cookies.get` sees and the
      directives sent back with the response. */
  class Cookies {
    var values: map<string, string>
    var outgoing: map<string, CookieDirective>

    constructor (values: map<string, string>)
      ensures this.values == values && outgoing == map[]
    {
      this.values := values;
      outgoing := map[];
    }
  }

  /** `cookies.get("session")` */
  function SessionCookieValue(values: map<string, string>): (token: Option<string>)
    ensures token.Some? <==> SessionCookieName in values
    ensures token.Some? ==> token.value == values[SessionCookieName]
  {
    if SessionCookieName in values then Some(values[SessionCookieName]) else None
  }
}
