/** The session cache of infrastructure/unifi.go: `setAuthCookie`, which runs
    before every controller request, and `login`, which it calls. The shared
    global `session` becomes an explicit input and output. */
module Sessions {
  import opened Types
  import opened Model

  /** The refresh test of `setAuthCookie`, kept as written: log in when there
      is no session yet, or when the cached expiration is still after `now`. */
  predicate NeedsLogin(s: Session, now: Instant) {
    s == ZeroSession || s.expiration > now
  }

  /** A cookie `login` accepts as the session: the right name, a value. */
  predicate IsAuthCookie(c: Cookie) {
    c.name == AuthCookieName && c.value != ""
  }

  /** The value of the first acceptable cookie of a login reply, in reply order. */
  function FirstAuthCookie(cookies: seq<Cookie>): (r: Option<string>)
    ensures r.None? <==> forall i :: 0 <= i < |cookies| ==> !IsAuthCookie(cookies[i])
    ensures r.Some? ==> exists i :: 0 <= i < |cookies| && IsAuthCookie(cookies[i]) && cookies[i].value == r.value
                                    && forall j :: 0 <= j < i ==> !IsAuthCookie(cookies[j])
    decreases |cookies|
  {
    if |cookies| == 0 then None
    else if IsAuthCookie(cookies[0]) then Some(cookies[0].value)
    else
      var r := FirstAuthCookie(cookies[1..]);
      assert forall i :: 1 <= i < |cookies| ==> cookies[i] == cookies[1..][i - 1];
      r
  }

  /** `login` once the POST is done: `reply` is the transport outcome and
      `now` the clock reading taken when the cookie is stored. */
  function Login(reply: Result<LoginResponse>, now: Instant): (r: Result<Session>)
    ensures reply.Err? ==> r == Err(reply.error)
    ensures reply.Ok? ==> (r.Ok? <==> exists i :: 0 <= i < |reply.value.cookies| && IsAuthCookie(reply.value.cookies[i]))
    ensures reply.Ok? && r.Err? ==> r.error == LoginRejected(reply.value.status, reply.value.body)
    ensures r.Ok? ==> r.value.key != "" && r.value.expiration == now + AuthCookieDuration
    ensures r.Ok? ==> Some(r.value.key) == FirstAuthCookie(reply.value.cookies)
  {
    match reply
    case Err(e) => Err(e)
    case Ok(resp) =>
      match FirstAuthCookie(resp.cookies)
      case None => Err(LoginRejected(resp.status, resp.body))
      case Some(key) => Ok(Session(key, now + AuthCookieDuration))
  }

  /** What `setAuthCookie` leaves behind: the cached session and either the key
      put into the request's cookie jar or the login error. */
  datatype AuthStep = AuthStep(session: Session, cookie: Result<string>)

  /** `setAuthCookie`: `now` is the clock reading of the refresh test,
      `loginNow` the later one taken inside `login`, and `reply` what the login
      POST would return (consulted only when a login happens). */
  function SetAuthCookie(s: Session, now: Instant, loginNow: Instant, reply: Result<LoginResponse>): (r: AuthStep)
    ensures !NeedsLogin(s, now) ==> r == AuthStep(s, Ok(s.key))
    ensures r.cookie.Err? ==> r.session == s && NeedsLogin(s, now)
    ensures r.cookie.Ok? ==> r.cookie.value == r.session.key
    ensures NeedsLogin(s, now) ==> (r.cookie.Ok? <==> Login(reply, loginNow).Ok?)
    ensures NeedsLogin(s, now) && r.cookie.Ok? ==> r.session.expiration == loginNow + AuthCookieDuration
    ensures NeedsLogin(s, now) && r.cookie.Ok? ==> r.session == Login(reply, loginNow).value
  {
    if NeedsLogin(s, now) then
      match Login(reply, loginNow)
      case Err(e) => AuthStep(s, Err(e))
      case Ok(renewed) => AuthStep(renewed, Ok(renewed.key))
    else AuthStep(s, Ok(s.key))
  }

  /** Consequence of the test as written: a session obtained by a login is
      replaced by another login on every request made while it is still
      valid, so the cached key is never reused before it expires. */
  lemma FreshSessionNotReused(s: Session, now: Instant, loginNow: Instant, reply: Result<LoginResponse>, later: Instant)
    requires NeedsLogin(s, now) && SetAuthCookie(s, now, loginNow, reply).cookie.Ok?
    requires later < loginNow + AuthCookieDuration
    ensures NeedsLogin(SetAuthCookie(s, now, loginNow, reply).session, later)
  {
  }

  /** The other consequence: once a cached session has expired it is reused,
      with its stale key, on every later request; no login happens again. */
  lemma ExpiredSessionReused(s: Session, now: Instant, loginNow: Instant, reply: Result<LoginResponse>)
    requires s != ZeroSession && s.expiration <= now
    ensures SetAuthCookie(s, now, loginNow, reply) == AuthStep(s, Ok(s.key))
  {
  }
}
