/** The HTTP client itself: the two module variables and the callbacks that update them. */
module SessionRefreshClient {
  import opened Wrappers
  import opened SessionRefresh
  import Text

  class ApiClient {
    var refreshPromise: Option<nat>
    var mfaWarningShown: bool
    var requests: seq<Request>
    var refreshes: seq<Refresh>
    var mfaToasts: nat
    var refreshRedirects: nat
    const inBrowser: bool

    function View(): Session
      reads this
    {
      Session(requests, refreshes, refreshPromise, mfaWarningShown, mfaToasts, refreshRedirects, inBrowser)
    }

    constructor (urls: seq<string>, inBrowser: bool)
      ensures View() == Init(urls, inBrowser)
    {
      this.inBrowser := inBrowser;
      requests := seq(|urls|, i requires 0 <= i < |urls| => Fresh(urls[i]));
      refreshes, refreshPromise := [], None;
      mfaWarningShown, mfaToasts, refreshRedirects := false, 0, 0;
    }

    method RefreshSession() returns (promise: nat)
      modifies this
      ensures (View(), promise) == SessionRefresh.RefreshSession(old(View()))
    {
      if refreshPromise == None {
        refreshes := refreshes + [Posted];
        refreshPromise := Some(|refreshes| - 1);
      }
      promise := refreshPromise.value;
    }

    /** The interceptor up to its `await`, or to its rejection; the toast is its own effect. */
    method OnError(url: string, retried: bool, error: HttpError) returns (verdict: Verdict)
      modifies this
      ensures verdict == Intercept(url, retried, error, old(mfaWarningShown), inBrowser)
      ensures View() == Warn(old(View()), verdict.RejectNow? && verdict.warn)
    {
      var redirect := false;
      var isAuthEndpoint := error.hasConfig && IsAuthEndpoint(url);
      if error.status == Some(401) && !isAuthEndpoint {
        if error.hasConfig && !retried {
          return AwaitRefresh;
        }
        redirect := inBrowser;
      }
      var warn := false;
      if error.status == Some(403) && error.message.Some?
         && Text.Includes(error.message.value, MFA_REQUIRED_MARKER) && !mfaWarningShown
      {
        mfaWarningShown := true;
        mfaToasts := mfaToasts + 1;
        warn := true;
      }
      verdict := RejectNow(redirect, warn);
    }

    method SendRequest(r: nat)
      requires Enabled(View(), Send(r))
      modifies this
      ensures View() == Next(old(View()), Send(r))
    {
      var q := requests[r];
      requests := requests[r := q.(phase := InFlight, trace := q.trace + [Sent])];
    }

    method ReceiveAnswer(r: nat, reply: Reply)
      requires Enabled(View(), Answer(r, reply))
      modifies this
      ensures View() == Next(old(View()), Answer(r, reply))
    {
      var q := requests[r];
      if reply.Success? {
        requests := requests[r := q.(phase := Finished, trace := q.trace + [Resolved])];
        return;
      }
      var verdict := OnError(q.url, q.retried, reply.error);
      if verdict.AwaitRefresh? {
        var k := RefreshSession();
        requests := requests[r := Request(q.url, true, Waiting(k, reply.error), q.trace + [Suspended(k, reply.error)])];
      } else {
        requests := requests[r := q.(phase := Finished, trace := q.trace + RejectActs(verdict.redirect, reply.error))];
      }
    }

    method ReceiveRefreshAnswer(k: nat, reply: Reply)
      requires Enabled(View(), RefreshAnswer(k, reply))
      modifies this
      ensures View() == Next(old(View()), RefreshAnswer(k, reply))
    {
      if reply.Success? {
        refreshes := refreshes[k := Answered(true)];
        return;
      }
      var verdict := OnError(REFRESH_URL, false, reply.error);
      if verdict.AwaitRefresh? {
        refreshes := refreshes[k := SelfWaiting];
      } else {
        refreshes := refreshes[k := Answered(false)];
        if verdict.redirect {
          refreshRedirects := refreshRedirects + 1;
        }
      }
    }

    method FinishRefresh(k: nat)
      requires Enabled(View(), RefreshFinally(k))
      modifies this
      ensures View() == Next(old(View()), RefreshFinally(k))
    {
      refreshes := refreshes[k := Settled(refreshes[k].ok)];
      refreshPromise := None;
    }

    method ResumeRequest(r: nat)
      requires Enabled(View(), Resume(r))
      modifies this
      ensures View() == Next(old(View()), Resume(r))
    {
      var q := requests[r];
      if refreshes[q.phase.refresh].ok {
        requests := requests[r := q.(phase := InFlight, trace := q.trace + [Resumed(true), Sent])];
      } else {
        requests := requests[r := q.(phase := Finished,
          trace := q.trace + [Resumed(false)] + RejectActs(inBrowser, q.phase.error))];
      }
    }
  }
}
