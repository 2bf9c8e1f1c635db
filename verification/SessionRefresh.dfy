/** The session-refresh protocol of the shared HTTP client, as a machine whose steps are
    the moments at which JavaScript runs one of its callbacks. */
module SessionRefresh {
  import opened Wrappers
  import Text

  const REFRESH_URL := "/auth/refresh"

  const AUTH_ENDPOINTS_WITHOUT_REDIRECT := [
    "/auth/login", "/auth/register", REFRESH_URL, "/auth/mfa/login-verify"
  ]

  const MFA_REQUIRED_MARKER := "authentification à deux facteurs (MFA) est obligatoire"

  predicate IsAuthEndpoint(url: string) {
    exists i :: 0 <= i < |AUTH_ENDPOINTS_WITHOUT_REDIRECT|
      && Text.Includes(url, AUTH_ENDPOINTS_WITHOUT_REDIRECT[i])
  }

  /** An axios error: `status` and `message` are absent when no response came back, and
      `hasConfig` says whether the error still carries its request. */
  datatype HttpError = HttpError(status: Option<int>, message: Option<string>, hasConfig: bool)

  datatype Reply = Success | Failure(error: HttpError)

  /** What the response interceptor decides on an error. */
  datatype Verdict = AwaitRefresh | RejectNow(redirect: bool, warn: bool)

  predicate Unauthorized(url: string, error: HttpError) {
    error.status == Some(401) && !(error.hasConfig && IsAuthEndpoint(url))
  }

  function Intercept(url: string, retried: bool, error: HttpError, warned: bool, inBrowser: bool): Verdict {
    var unauthorized := Unauthorized(url, error);
    if unauthorized && error.hasConfig && !retried then AwaitRefresh
    else RejectNow(
      unauthorized && inBrowser,
      error.status == Some(403) && error.message.Some?
        && Text.Includes(error.message.value, MFA_REQUIRED_MARKER) && !warned)
  }

  /** What a caller of the client can observe about one request, in order. */
  datatype Act =
    | Sent
    | Suspended(refresh: nat, error: HttpError)  // awaits that refresh, holding its own 401
    | Resumed(refreshed: bool)
    | Redirected                                 // window.location.href = '/auth/login'
    | Resolved
    | Rejected(error: HttpError)

  datatype Phase = Idle | InFlight | Waiting(refresh: nat, error: HttpError) | Finished

  /** `retried` is the `_retriedAfterRefresh` mark on the request's configuration. */
  datatype Request = Request(url: string, retried: bool, phase: Phase, trace: seq<Act>)

  /** One `/auth/refresh` post. Between `Answered` and `Settled` its `.finally` has not run
      yet. `SelfWaiting` is where it would land if its own 401 awaited a refresh. */
  datatype Refresh = Posted | SelfWaiting | Answered(ok: bool) | Settled(ok: bool)

  datatype Session = Session(
    requests: seq<Request>,
    refreshes: seq<Refresh>,
    refreshPromise: Option<nat>,
    mfaWarningShown: bool,
    mfaToasts: nat,
    refreshRedirects: nat,
    inBrowser: bool)

  datatype Event =
    | Send(r: nat)
    | Answer(r: nat, reply: Reply)
    | RefreshAnswer(k: nat, reply: Reply)
    | RefreshFinally(k: nat)
    | Resume(r: nat)

  function Fresh(url: string): Request { Request(url, false, Idle, []) }

  function Init(urls: seq<string>, inBrowser: bool): Session {
    Session(seq(|urls|, i requires 0 <= i < |urls| => Fresh(urls[i])), [], None, false, 0, 0, inBrowser)
  }

  /** `refreshSession()`: join the promise of the running refresh, or post a new one. */
  function RefreshSession(s: Session): (Session, nat) {
    match s.refreshPromise
    case Some(k) => (s, k)
    case None =>
      var k := |s.refreshes|;
      (s.(refreshes := s.refreshes + [Posted], refreshPromise := Some(k)), k)
  }

  function Warn(s: Session, warn: bool): Session {
    if warn then s.(mfaWarningShown := true, mfaToasts := s.mfaToasts + 1) else s
  }

  function RejectActs(redirect: bool, error: HttpError): seq<Act> {
    (if redirect then [Redirected] else []) + [Rejected(error)]
  }

  predicate Enabled(s: Session, e: Event) {
    match e
    case Send(r) => r < |s.requests| && s.requests[r].phase.Idle?
    case Answer(r, _) => r < |s.requests| && s.requests[r].phase.InFlight?
    case RefreshAnswer(k, _) => k < |s.refreshes| && s.refreshes[k].Posted?
    case RefreshFinally(k) => k < |s.refreshes| && s.refreshes[k].Answered?
    case Resume(r) =>
      && r < |s.requests| && s.requests[r].phase.Waiting?
      && s.requests[r].phase.refresh < |s.refreshes|
      && s.refreshes[s.requests[r].phase.refresh].Settled?
  }

  function Next(s: Session, e: Event): Session
    requires Enabled(s, e)
  {
    match e
    case Send(r) =>
      var q := s.requests[r];
      s.(requests := s.requests[r := q.(phase := InFlight, trace := q.trace + [Sent])])
    case Answer(r, reply) => OnAnswer(s, r, reply)
    case RefreshAnswer(k, reply) => OnRefreshAnswer(s, k, reply)
    case RefreshFinally(k) =>
      s.(refreshes := s.refreshes[k := Settled(s.refreshes[k].ok)], refreshPromise := None)
    case Resume(r) => OnResume(s, r)
  }

  function OnAnswer(s: Session, r: nat, reply: Reply): Session
    requires r < |s.requests|
  {
    var q := s.requests[r];
    match reply
    case Success =>
      s.(requests := s.requests[r := q.(phase := Finished, trace := q.trace + [Resolved])])
    case Failure(error) =>
      match Intercept(q.url, q.retried, error, s.mfaWarningShown, s.inBrowser)
      case AwaitRefresh =>
        var (s', k) := RefreshSession(s);
        var q' := Request(q.url, true, Waiting(k, error), q.trace + [Suspended(k, error)]);
        s'.(requests := s'.requests[r := q'])
      case RejectNow(redirect, warn) =>
        var q' := q.(phase := Finished, trace := q.trace + RejectActs(redirect, error));
        Warn(s.(requests := s.requests[r := q']), warn)
  }

  /** The refresh post passes through the same interceptor, with its own URL. */
  function OnRefreshAnswer(s: Session, k: nat, reply: Reply): Session
    requires k < |s.refreshes|
  {
    match reply
    case Success => s.(refreshes := s.refreshes[k := Answered(true)])
    case Failure(error) =>
      match Intercept(REFRESH_URL, false, error, s.mfaWarningShown, s.inBrowser)
      case AwaitRefresh => s.(refreshes := s.refreshes[k := SelfWaiting])
      case RejectNow(redirect, warn) =>
        Warn(s.(refreshes := s.refreshes[k := Answered(false)],
                refreshRedirects := s.refreshRedirects + if redirect then 1 else 0), warn)
  }

  function OnResume(s: Session, r: nat): Session
    requires Enabled(s, Resume(r))
  {
    var q := s.requests[r];
    var ok := s.refreshes[q.phase.refresh].ok;
    var q' :=
      if ok then q.(phase := InFlight, trace := q.trace + [Resumed(true), Sent])
      else q.(phase := Finished,
              trace := q.trace + [Resumed(false)] + RejectActs(s.inBrowser, q.phase.error));
    s.(requests := s.requests[r := q'])
  }

  /** A run: every event is enabled when it happens. */
  predicate ValidRun(s: Session, events: seq<Event>)
    decreases |events|
  {
    events == [] || (Enabled(s, events[0]) && ValidRun(Next(s, events[0]), events[1..]))
  }

  function After(s: Session, events: seq<Event>): Session
    requires ValidRun(s, events)
    decreases |events|
  {
    if events == [] then s else After(Next(s, events[0]), events[1..])
  }
}
