/**
 * The session cookie (Server/LuciferCore/Helper/CookieHelper.cs): reading the
 * `sessionId` cookie of a request and writing or expiring it on a response.
 */
module Cookies {
  import opened Wrappers
  import opened Http

  const SessionCookie: string := "sessionId"

  /** The 32-bit two's-complement value of an integer, as unchecked int arithmetic leaves it. */
  function Wrap32(x: int): (r: int)
    ensures -0x8000_0000 <= r < 0x8000_0000
    ensures (r - x) % 0x1_0000_0000 == 0
    ensures -0x8000_0000 <= x < 0x8000_0000 ==> r == x
  {
    var m := x % 0x1_0000_0000;
    if m < 0x8000_0000 then m else m - 0x1_0000_0000
  }

  /** The cookie SetSession writes: max-age minutes·60 seconds (in 32-bit arithmetic), path "/", secure, strict, HTTP only. */
  function SessionCookieFor(sessionId: string, minutes: int): (c: Cookie)
    ensures c.name == SessionCookie && c.value == sessionId && c.path == "/"
    ensures c.secure && c.strict && c.httpOnly
    ensures -0x8000_0000 <= minutes * 60 < 0x8000_0000 ==> c.maxAge == minutes * 60
  {
    Cookie(SessionCookie, sessionId, Wrap32(minutes * 60), "/", true, true, true)
  }

  /** The default lifetime of SetSession, in minutes. */
  const DefaultMinutes: int := 60

  /** SetSession: appends the session cookie. */
  method SetSession(response: Response, sessionId: string, minutes: int)
    modifies response
    ensures response.cookies == old(response.cookies) + [SessionCookieFor(sessionId, minutes)]
    ensures response.headers == old(response.headers)
  {
    response.SetCookie(SessionCookieFor(sessionId, minutes));
  }

  /** RemoveSession: appends an empty session cookie that expires at once, with the same attributes. */
  method RemoveSession(response: Response)
    modifies response
    ensures response.cookies == old(response.cookies) + [Cookie(SessionCookie, "", 0, "/", true, true, true)]
    ensures response.headers == old(response.headers)
  {
    response.SetCookie(Cookie(SessionCookie, "", 0, "/", true, true, true));
  }

  /**
   * GetSession: the value of the first cookie named exactly "sessionId" (case
   * matters); null when there are no cookies or none has that name.
   */
  method GetSession(request: Request) returns (r: Option<string>)
    ensures r == ValueOf(request.cookies, SessionCookie, false)
    ensures r.Some? <==> exists i :: 0 <= i < |request.cookies| && request.cookies[i].0 == SessionCookie
    ensures |request.cookies| == 0 ==> r.None?
  {
    r := None;
    if |request.cookies| > 0 {
      r := Lookup(request.cookies, SessionCookie, false);
    }
  }
}
