/** The session-refresh protocol in its own terms: which replies suspend a request, which redirect,
    when the MFA warning appears, and what a finished request has gone through, spelled out. */
module SessionRefreshLaws {
  import opened Wrappers
  import opened SessionRefresh
  import opened SessionRefreshProofs
  import opened Text

  /** The four endpoints whose 401 is left to the caller. */
  ghost predicate Exempt(url: string) {
    || Contains(url, "/auth/login") || Contains(url, "/auth/register")
    || Contains(url, "/auth/refresh") || Contains(url, "/auth/mfa/login-verify")
  }

  /** A 401 that means an expired session. */
  ghost predicate Expired(url: string, error: HttpError) {
    error.status == Some(401) && !(error.hasConfig && Exempt(url))
  }

  lemma ExemptMeansListed(url: string)
    ensures IsAuthEndpoint(url) <==> Exempt(url)
  {
    IncludesIff(url, "/auth/login");
    IncludesIff(url, "/auth/register");
    IncludesIff(url, "/auth/refresh");
    IncludesIff(url, "/auth/mfa/login-verify");
    ListedEndpoints(url);
  }

  lemma ListedEndpoints(url: string)
    ensures IsAuthEndpoint(url) <==>
      || Includes(url, "/auth/login") || Includes(url, "/auth/register")
      || Includes(url, "/auth/refresh") || Includes(url, "/auth/mfa/login-verify")
  {
    var list := AUTH_ENDPOINTS_WITHOUT_REDIRECT;
    assert list[0] == "/auth/login" && list[1] == "/auth/register";
    assert list[2] == "/auth/refresh" && list[3] == "/auth/mfa/login-verify";
  }

  lemma ExpiredMeansUnauthorized(url: string, error: HttpError)
    ensures Unauthorized(url, error) <==> Expired(url, error)
  {
    ExemptMeansListed(url);
  }

  // ---------- One reply ----------

  /** A reply suspends a request exactly when it is a 401 carrying its request, on an endpoint
      that is not exempt, and the request was not retried before. */
  lemma SuspendsIff(s: Session, r: nat, reply: Reply)
    requires Enabled(s, Answer(r, reply))
    ensures var q, q' := s.requests[r], Next(s, Answer(r, reply)).requests[r];
      && (q'.phase.Waiting? <==>
            && reply.Failure? && reply.error.status == Some(401) && reply.error.hasConfig
            && !q.retried && !Exempt(q.url))
      && (q'.phase.Waiting? ==>
            && q'.url == q.url && q'.retried && q'.phase.error == reply.error
            && q'.trace == q.trace + [Suspended(q'.phase.refresh, reply.error)])
  {
    if reply.Failure? {
      ExpiredMeansUnauthorized(s.requests[r].url, reply.error);
    }
  }

  /** A suspended request awaits the refresh that is running, or else one newly posted. */
  lemma SuspendsOnRunningRefresh(s: Session, r: nat, reply: Reply)
    requires Inv(s) && Enabled(s, Answer(r, reply)) && Next(s, Answer(r, reply)).requests[r].phase.Waiting?
    ensures var s' := Next(s, Answer(r, reply));
      var k := s'.requests[r].phase.refresh;
      && k < |s'.refreshes| && !s'.refreshes[k].Settled?
      && (if exists j :: 0 <= j < |s.refreshes| && !s.refreshes[j].Settled? then s'.refreshes == s.refreshes
          else k == |s.refreshes| && s'.refreshes == s.refreshes + [Posted])
  {
    if s.refreshPromise.Some? {
      assert !s.refreshes[s.refreshPromise.value].Settled?;
    }
  }

  /** Any other reply ends the request: with the answer, or with the very error that came back,
      after a redirect exactly when that is an expired session in a browser. */
  lemma OtherRepliesEnd(s: Session, r: nat, reply: Reply)
    requires Enabled(s, Answer(r, reply)) && !Next(s, Answer(r, reply)).requests[r].phase.Waiting?
    ensures var q, q' := s.requests[r], Next(s, Answer(r, reply)).requests[r];
      && q'.phase.Finished?
      && q'.trace == q.trace +
           match reply
           case Success => [Resolved]
           case Failure(error) =>
             if Expired(q.url, error) && s.inBrowser then [Redirected, Rejected(error)] else [Rejected(error)]
  {
    if reply.Failure? {
      ExpiredMeansUnauthorized(s.requests[r].url, reply.error);
    }
  }

  /** A waiter is sent again when its refresh succeeded; otherwise it is rejected with its own
      401, in a browser after a redirect. */
  lemma ResumeFollowsRefresh(s: Session, r: nat)
    requires Enabled(s, Resume(r))
    ensures var q, q' := s.requests[r], Next(s, Resume(r)).requests[r];
      var ok, error := s.refreshes[q.phase.refresh].ok, q.phase.error;
      && q'.phase == (if ok then InFlight else Finished)
      && q'.trace == q.trace +
           if ok then [Resumed(true), Sent]
           else if s.inBrowser then [Resumed(false), Redirected, Rejected(error)]
           else [Resumed(false), Rejected(error)]
  {}

  // ---------- The refresh itself ----------

  predicate HasOutcome(refreshes: seq<Refresh>, k: nat, ok: bool) {
    k < |refreshes| && (refreshes[k] == Answered(ok) || refreshes[k] == Settled(ok))
  }

  lemma OutcomeStep(s: Session, e: Event, k: nat, ok: bool)
    requires Enabled(s, e) && HasOutcome(Next(s, e).refreshes, k, ok)
    ensures HasOutcome(s.refreshes, k, ok) || (e.RefreshAnswer? && e.k == k && e.reply.Success? == ok)
  {
    match e
    case Answer(r, reply) =>
    case _ =>
  }

  lemma {:induction false} OutcomeIsAnswer(s: Session, events: seq<Event>, k: nat, ok: bool)
    requires ValidRun(s, events) && HasOutcome(After(s, events).refreshes, k, ok)
    ensures HasOutcome(s.refreshes, k, ok)
      || exists i :: 0 <= i < |events| && events[i].RefreshAnswer? && events[i].k == k && events[i].reply.Success? == ok
    decreases |events|
  {
    if events != [] {
      OutcomeIsAnswer(Next(s, events[0]), events[1..], k, ok);
      if HasOutcome(Next(s, events[0]).refreshes, k, ok) {
        OutcomeStep(s, events[0], k, ok);
      } else {
        var i :| 0 <= i < |events[1..]| && events[1..][i].RefreshAnswer? && events[1..][i].k == k
          && events[1..][i].reply.Success? == ok;
        assert events[i + 1] == events[1..][i];
      }
    }
  }

  /** A refresh that settled as a success was answered by the server with one, and likewise for
      a failure. */
  lemma RefreshOutcomeIsTheServers(urls: seq<string>, inBrowser: bool, events: seq<Event>, k: nat)
    requires ValidRun(Init(urls, inBrowser), events)
    requires k < |After(Init(urls, inBrowser), events).refreshes|
    requires After(Init(urls, inBrowser), events).refreshes[k].Settled?
    ensures var ok := After(Init(urls, inBrowser), events).refreshes[k].ok;
      exists i :: 0 <= i < |events| && events[i].RefreshAnswer? && events[i].k == k && events[i].reply.Success? == ok
  {
    OutcomeIsAnswer(Init(urls, inBrowser), events, k, After(Init(urls, inBrowser), events).refreshes[k].ok);
  }

  lemma RefreshIsExempt()
    ensures Exempt(REFRESH_URL)
  {
    assert REFRESH_URL == [] + "/auth/refresh" + [];
  }

  /** The refresh's own failure redirects only in the odd case of a 401 that lost its request. */
  lemma RefreshRedirectsIff(s: Session, k: nat, reply: Reply)
    requires Enabled(s, RefreshAnswer(k, reply))
    ensures Next(s, RefreshAnswer(k, reply)).refreshes == s.refreshes[k := Answered(reply.Success?)]
    ensures Next(s, RefreshAnswer(k, reply)).refreshRedirects == s.refreshRedirects +
      if reply.Failure? && reply.error.status == Some(401) && !reply.error.hasConfig && s.inBrowser then 1 else 0
  {
    if reply.Failure? {
      RefreshIsExempt();
      ExpiredMeansUnauthorized(REFRESH_URL, reply.error);
    }
  }

  // ---------- The MFA warning ----------

  /** The reply of an application request or of the refresh is a 403 asking for MFA. */
  ghost predicate AsksForMfa(e: Event) {
    && (e.Answer? || e.RefreshAnswer?) && e.reply.Failure?
    && e.reply.error.status == Some(403) && e.reply.error.message.Some?
    && Contains(e.reply.error.message.value, "authentification à deux facteurs (MFA) est obligatoire")
  }

  ghost predicate AnyAsksForMfa(events: seq<Event>) {
    exists i :: 0 <= i < |events| && AsksForMfa(events[i])
  }

  lemma MfaStep(s: Session, e: Event)
    requires Enabled(s, e)
    ensures var s' := Next(s, e);
      && s'.mfaWarningShown == (s.mfaWarningShown || AsksForMfa(e))
      && s'.mfaToasts == s.mfaToasts + if AsksForMfa(e) && !s.mfaWarningShown then 1 else 0
  {
    if (e.Answer? || e.RefreshAnswer?) && e.reply.Failure? && e.reply.error.message.Some? {
      IncludesIff(e.reply.error.message.value, MFA_REQUIRED_MARKER);
    }
  }

  lemma {:induction false} MfaRun(s: Session, events: seq<Event>)
    requires ValidRun(s, events)
    ensures var s' := After(s, events);
      s'.mfaToasts == s.mfaToasts + if AnyAsksForMfa(events) && !s.mfaWarningShown then 1 else 0
    decreases |events|
  {
    if events != [] {
      MfaStep(s, events[0]);
      MfaRun(Next(s, events[0]), events[1..]);
      if AnyAsksForMfa(events[1..]) {
        var i :| 0 <= i < |events[1..]| && AsksForMfa(events[1..][i]);
        assert events[i + 1] == events[1..][i];
      }
      if AnyAsksForMfa(events) && !AsksForMfa(events[0]) {
        var i :| 0 <= i < |events| && AsksForMfa(events[i]);
        assert events[1..][i - 1] == events[i];
      }
    }
  }

  lemma {:induction false} PrefixIsRun(s: Session, events: seq<Event>, n: nat)
    requires ValidRun(s, events) && n <= |events|
    ensures ValidRun(s, events[..n])
    decreases |events|
  {
    if n > 0 {
      PrefixIsRun(Next(s, events[0]), events[1..], n - 1);
      assert events[..n][1..] == events[1..][..n - 1];
    }
  }

  /** At every moment of a run the warning has been shown once if some reply so far asked for
      MFA, and not at all otherwise: so it appears at the first such reply and at no other. */
  lemma MfaToastAtFirstAsking(urls: seq<string>, inBrowser: bool, events: seq<Event>, n: nat)
    requires ValidRun(Init(urls, inBrowser), events) && n <= |events|
    ensures ValidRun(Init(urls, inBrowser), events[..n])
    ensures After(Init(urls, inBrowser), events[..n]).mfaToasts == if AnyAsksForMfa(events[..n]) then 1 else 0
  {
    PrefixIsRun(Init(urls, inBrowser), events, n);
    MfaRun(Init(urls, inBrowser), events[..n]);
  }

  // ---------- What a finished request has gone through ----------

  /** The acts of a reply that ends a request. */
  ghost predicate Ending(acts: seq<Act>, url: string, inBrowser: bool) {
    || acts == [Resolved]
    || exists error ::
         acts == if Expired(url, error) && inBrowser then [Redirected, Rejected(error)] else [Rejected(error)]
  }

  /** Answered at once: by no expired session that could be refreshed. */
  ghost predicate AnsweredAtOnce(t: seq<Act>, url: string, inBrowser: bool) {
    && t != [] && t[0] == Sent && Ending(t[1..], url, inBrowser)
    && (forall error :: Expired(url, error) && error.hasConfig ==> t[|t| - 1] != Rejected(error))
  }

  ghost predicate Refused(t: seq<Act>, url: string, refreshes: seq<Refresh>, inBrowser: bool) {
    exists k: nat, error ::
      && k < |refreshes| && refreshes[k] == Settled(false) && Expired(url, error) && error.hasConfig
      && t == [Sent, Suspended(k, error), Resumed(false)]
            + if inBrowser then [Redirected, Rejected(error)] else [Rejected(error)]
  }

  ghost predicate SentAgain(t: seq<Act>, url: string, refreshes: seq<Refresh>, inBrowser: bool) {
    exists k: nat, error ::
      && k < |refreshes| && refreshes[k] == Settled(true) && Expired(url, error) && error.hasConfig
      && |t| > 4 && t[..4] == [Sent, Suspended(k, error), Resumed(true), Sent] && Ending(t[4..], url, inBrowser)
  }

  lemma EndingOfReply(acts: seq<Act>, url: string, inBrowser: bool)
    requires EndsWithReply(acts, url, inBrowser)
    ensures Ending(acts, url, inBrowser) && acts != []
  {
    if acts != [Resolved] {
      ExpiredMeansUnauthorized(url, acts[|acts| - 1].error);
    }
  }

  lemma AnsweredStory(t: seq<Act>, url: string, inBrowser: bool)
    requires EndsUnretried(t, url, inBrowser)
    ensures AnsweredAtOnce(t, url, inBrowser)
  {
    EndingOfReply(t[1..], url, inBrowser);
    if t[|t| - 1].Rejected? {
      ExpiredMeansUnauthorized(url, t[|t| - 1].error);
    }
  }

  /** Every finished request was answered at once, or refused after a failed refresh, or sent
      again exactly once after a successful one. */
  lemma StoriesSpelledOut(urls: seq<string>, inBrowser: bool, events: seq<Event>, r: nat)
    requires ValidRun(Init(urls, inBrowser), events)
    requires r < |After(Init(urls, inBrowser), events).requests|
    requires After(Init(urls, inBrowser), events).requests[r].phase.Finished?
    ensures var s := After(Init(urls, inBrowser), events);
      var t, url := s.requests[r].trace, s.requests[r].url;
      || AnsweredAtOnce(t, url, inBrowser)
      || Refused(t, url, s.refreshes, inBrowser)
      || SentAgain(t, url, s.refreshes, inBrowser)
  {
    var s := After(Init(urls, inBrowser), events);
    var t, url := s.requests[r].trace, s.requests[r].url;
    FinishedStories(urls, inBrowser, events, r);
    if EndsUnretried(t, url, inBrowser) {
      AnsweredStory(t, url, inBrowser);
    } else {
      ExpiredMeansUnauthorized(url, t[1].error);
      if !EndsRefused(t, url, s.refreshes, inBrowser) {
        EndingOfReply(t[4..], url, inBrowser);
        assert t[..4] == [Sent, Suspended(t[1].refresh, t[1].error), Resumed(true), Sent];
      }
    }
  }
}
