/** What holds in every interleaving of the session-refresh protocol. */
module SessionRefreshProofs {
  import opened Wrappers
  import opened SessionRefresh
  import Text

  // ---------- What every step keeps ----------

  /** The promise variable names the one refresh whose chain is still running. */
  predicate OneRefresh(s: Session) {
    && (forall k :: 0 <= k < |s.refreshes| ==> !s.refreshes[k].SelfWaiting?)
    && (forall k :: 0 <= k < |s.refreshes| ==> (s.refreshPromise == Some(k) <==> !s.refreshes[k].Settled?))
    && (s.refreshPromise.Some? ==> s.refreshPromise.value < |s.refreshes|)
  }

  predicate WarnedOnce(s: Session) {
    s.mfaToasts == if s.mfaWarningShown then 1 else 0
  }

  predicate SettledAs(refreshes: seq<Refresh>, k: nat, ok: bool) {
    k < |refreshes| && refreshes[k] == Settled(ok)
  }

  /** The acts left by a reply that ends the request: resolved, or rejected with the very
      error that came back, after a redirect when that error was an ordinary 401. */
  predicate EndsWithReply(acts: seq<Act>, url: string, inBrowser: bool) {
    || acts == [Resolved]
    || (acts != [] && acts[|acts| - 1].Rejected?
        && var error := acts[|acts| - 1].error;
           acts == RejectActs(Unauthorized(url, error) && inBrowser, error))
  }

  /** The request was sent and suspended on a refresh by a 401 of its own. */
  predicate Suspends(t: seq<Act>, url: string) {
    && |t| >= 2 && t[0] == Sent && t[1].Suspended?
    && Unauthorized(url, t[1].error) && t[1].error.hasConfig
  }

  predicate EndsUnretried(t: seq<Act>, url: string, inBrowser: bool) {
    && t != [] && t[0] == Sent && EndsWithReply(t[1..], url, inBrowser)
    && (t[|t| - 1].Rejected? ==> !(Unauthorized(url, t[|t| - 1].error) && t[|t| - 1].error.hasConfig))
  }

  /** The refresh failed: login redirect, then rejection with the request's own 401. */
  predicate EndsRefused(t: seq<Act>, url: string, refreshes: seq<Refresh>, inBrowser: bool) {
    && Suspends(t, url) && SettledAs(refreshes, t[1].refresh, false)
    && t == [Sent, t[1], Resumed(false)] + RejectActs(inBrowser, t[1].error)
  }

  predicate Replays(t: seq<Act>, url: string, refreshes: seq<Refresh>) {
    && |t| >= 4 && Suspends(t, url) && SettledAs(refreshes, t[1].refresh, true)
    && t[..4] == [Sent, t[1], Resumed(true), Sent]
  }

  /** Everything that can be observed of a request, phase by phase. */
  predicate Lawful(q: Request, refreshes: seq<Refresh>, inBrowser: bool) {
    match q.phase
    case Idle => !q.retried && q.trace == []
    case InFlight =>
      if q.retried then |q.trace| == 4 && Replays(q.trace, q.url, refreshes) else q.trace == [Sent]
    case Waiting(k, error) =>
      && q.retried && k < |refreshes| && Suspends(q.trace, q.url)
      && q.trace == [Sent, Suspended(k, error)]
    case Finished =>
      if q.retried then
        || EndsRefused(q.trace, q.url, refreshes, inBrowser)
        || (Replays(q.trace, q.url, refreshes) && EndsWithReply(q.trace[4..], q.url, inBrowser))
      else EndsUnretried(q.trace, q.url, inBrowser)
  }

  predicate Inv(s: Session) {
    && OneRefresh(s) && WarnedOnce(s)
    && forall r :: 0 <= r < |s.requests| ==> Lawful(s.requests[r], s.refreshes, s.inBrowser)
  }

  /** The refresh post is exempt: its own failure never awaits a refresh. */
  lemma RefreshNeverAwaitsItself(retried: bool, error: HttpError, warned: bool, inBrowser: bool)
    ensures !Intercept(REFRESH_URL, retried, error, warned, inBrowser).AwaitRefresh?
    ensures IsAuthEndpoint(REFRESH_URL)
  {
    assert AUTH_ENDPOINTS_WITHOUT_REDIRECT[2] == REFRESH_URL;
    assert Text.Includes(REFRESH_URL, AUTH_ENDPOINTS_WITHOUT_REDIRECT[2]);
  }

  /** A settled refresh keeps its outcome, so a lawful request stays lawful. */
  lemma LawfulMonotone(q: Request, before: seq<Refresh>, after: seq<Refresh>, inBrowser: bool)
    requires Lawful(q, before, inBrowser) && |before| <= |after|
    requires forall k :: 0 <= k < |before| && before[k].Settled? ==> after[k] == before[k]
    ensures Lawful(q, after, inBrowser)
  {}

  lemma EndsWithReject(url: string, inBrowser: bool, error: HttpError)
    ensures EndsWithReply(RejectActs(Unauthorized(url, error) && inBrowser, error), url, inBrowser)
  {
    var acts := RejectActs(Unauthorized(url, error) && inBrowser, error);
    assert acts[|acts| - 1] == Rejected(error);
  }

  lemma SuccessLawful(q: Request, refreshes: seq<Refresh>, inBrowser: bool)
    requires Lawful(q, refreshes, inBrowser) && q.phase.InFlight?
    ensures Lawful(q.(phase := Finished, trace := q.trace + [Resolved]), refreshes, inBrowser)
  {
    var t := q.trace + [Resolved];
    assert t[|q.trace|..] == [Resolved];
    assert q.retried ==> t[..4] == q.trace[..4];
  }

  lemma RejectionLawful(q: Request, refreshes: seq<Refresh>, error: HttpError, inBrowser: bool)
    requires Lawful(q, refreshes, inBrowser) && q.phase.InFlight?
    requires !(Unauthorized(q.url, error) && error.hasConfig && !q.retried)
    ensures Lawful(
      q.(phase := Finished, trace := q.trace + RejectActs(Unauthorized(q.url, error) && inBrowser, error)),
      refreshes, inBrowser)
  {
    var acts := RejectActs(Unauthorized(q.url, error) && inBrowser, error);
    var t := q.trace + acts;
    EndsWithReject(q.url, inBrowser, error);
    assert t[|q.trace|..] == acts;
    assert t[|t| - 1] == Rejected(error);
    if q.retried {
      assert t[..4] == q.trace[..4];
      assert Replays(t, q.url, refreshes);
    } else {
      assert EndsUnretried(t, q.url, inBrowser);
    }
  }

  /** Changing one request, and refreshes only by progress, keeps every other one lawful. */
  lemma OthersStayLawful(s: Session, s': Session, r: nat)
    requires Inv(s) && r < |s.requests| == |s'.requests| && s'.inBrowser == s.inBrowser
    requires forall i :: 0 <= i < |s.requests| && i != r ==> s'.requests[i] == s.requests[i]
    requires |s.refreshes| <= |s'.refreshes|
    requires forall k :: 0 <= k < |s.refreshes| && s.refreshes[k].Settled? ==> s'.refreshes[k] == s.refreshes[k]
    requires Lawful(s'.requests[r], s'.refreshes, s'.inBrowser)
    requires OneRefresh(s') && WarnedOnce(s')
    ensures Inv(s')
  {
    forall i | 0 <= i < |s.requests| && i != r
      ensures Lawful(s'.requests[i], s'.refreshes, s'.inBrowser)
    {
      LawfulMonotone(s.requests[i], s.refreshes, s'.refreshes, s.inBrowser);
    }
  }

  lemma AwaitKeepsOneRefresh(s: Session)
    requires OneRefresh(s)
    ensures OneRefresh(RefreshSession(s).0) && RefreshSession(s).1 < |RefreshSession(s).0.refreshes|
    ensures |s.refreshes| <= |RefreshSession(s).0.refreshes|
    ensures forall k :: 0 <= k < |s.refreshes| ==> RefreshSession(s).0.refreshes[k] == s.refreshes[k]
  {}

  lemma AnswerLawful(s: Session, r: nat, reply: Reply)
    requires Inv(s) && Enabled(s, Answer(r, reply))
    ensures Inv(Next(s, Answer(r, reply)))
  {
    var s' := Next(s, Answer(r, reply));
    var q, q' := s.requests[r], s'.requests[r];
    match reply
    case Success =>
      SuccessLawful(q, s.refreshes, s.inBrowser);
    case Failure(error) =>
      match Intercept(q.url, q.retried, error, s.mfaWarningShown, s.inBrowser) {
        case AwaitRefresh =>
          AwaitKeepsOneRefresh(s);
          assert q'.trace == [Sent, Suspended(RefreshSession(s).1, error)];
        case RejectNow(redirect, warn) =>
          RejectionLawful(q, s.refreshes, error, s.inBrowser);
      }
      OthersStayLawful(s, s', r);
  }

  lemma RefreshStepLawful(s: Session, e: Event)
    requires Inv(s) && Enabled(s, e) && (e.RefreshAnswer? || e.RefreshFinally?)
    ensures Inv(Next(s, e))
  {
    var s' := Next(s, e);
    if e.RefreshAnswer? && e.reply.Failure? {
      RefreshNeverAwaitsItself(false, e.reply.error, s.mfaWarningShown, s.inBrowser);
    }
    forall i | 0 <= i < |s.requests| ensures Lawful(s'.requests[i], s'.refreshes, s.inBrowser) {
      LawfulMonotone(s.requests[i], s.refreshes, s'.refreshes, s.inBrowser);
    }
  }

  lemma ResumeLawful(s: Session, r: nat)
    requires Inv(s) && Enabled(s, Resume(r))
    ensures Inv(Next(s, Resume(r)))
  {
    var q, q' := s.requests[r], Next(s, Resume(r)).requests[r];
    var k, error := q.phase.refresh, q.phase.error;
    if s.refreshes[k].ok {
      assert q'.trace == [Sent, Suspended(k, error), Resumed(true), Sent];
    } else {
      assert q'.trace == [Sent, Suspended(k, error), Resumed(false)] + RejectActs(s.inBrowser, error);
    }
  }

  lemma StepKeepsInv(s: Session, e: Event)
    requires Inv(s) && Enabled(s, e)
    ensures Inv(Next(s, e))
  {
    match e
    case Send(r) =>
    case Answer(r, reply) => AnswerLawful(s, r, reply);
    case RefreshAnswer(_, _) => RefreshStepLawful(s, e);
    case RefreshFinally(_) => RefreshStepLawful(s, e);
    case Resume(r) => ResumeLawful(s, r);
  }

  // ---------- Progress ----------

  function Total(requests: seq<Request>, cost: Request -> nat): nat {
    if requests == [] then 0 else cost(requests[0]) + Total(requests[1..], cost)
  }

  lemma {:induction false} TotalUpdate(requests: seq<Request>, r: nat, q: Request, cost: Request -> nat)
    requires r < |requests|
    ensures Total(requests[r := q], cost) + cost(requests[r]) == Total(requests, cost) + cost(q)
  {
    if r == 0 {
      assert requests[r := q][1..] == requests[1..];
    } else {
      TotalUpdate(requests[1..], r - 1, q, cost);
      assert requests[r := q][1..] == requests[1..][r - 1 := q];
    }
  }

  lemma {:induction false} TotalAtMost(requests: seq<Request>, cost: Request -> nat, bound: nat)
    requires forall r :: 0 <= r < |requests| ==> cost(requests[r]) <= bound
    ensures Total(requests, cost) <= bound * |requests|
  {
    if requests != [] {
      TotalAtMost(requests[1..], cost, bound);
      assert bound * |requests| == bound + bound * |requests[1..]|;
    }
  }

  /** Steps a request can still cause, its own refresh included. */
  function StepsLeft(q: Request): nat {
    match q.phase
    case Idle => 6
    case InFlight => if q.retried then 1 else 5
    case Waiting(_, _) => 2
    case Finished => 0
  }

  function RefreshStepsLeft(s: Session): nat {
    match s.refreshPromise
    case None => 0
    case Some(k) => if k < |s.refreshes| && s.refreshes[k].Posted? then 2 else 1
  }

  function Budget(s: Session): nat { Total(s.requests, StepsLeft) + RefreshStepsLeft(s) }

  /** Refresh posts a request can still cause. */
  function PostsLeft(q: Request): nat {
    if q.phase.Idle? || (q.phase.InFlight? && !q.retried) then 1 else 0
  }

  /** Refreshes posted so far and still possible. */
  function PostBudget(s: Session): nat { |s.refreshes| + Total(s.requests, PostsLeft) }

  /** How often the request has gone out. */
  function Sends(q: Request): nat { multiset(q.trace)[Sent] }

  lemma StepSpendsBudget(s: Session, e: Event)
    requires Inv(s) && Enabled(s, e)
    ensures Budget(Next(s, e)) + 1 <= Budget(s)
    ensures PostBudget(Next(s, e)) <= PostBudget(s)
  {
    match e
    case Send(r) => RequestStepSpends(s, e, r);
    case Answer(r, _) => RequestStepSpends(s, e, r);
    case Resume(r) => RequestStepSpends(s, e, r);
    case RefreshAnswer(_, reply) =>
      if reply.Failure? {
        RefreshNeverAwaitsItself(false, reply.error, s.mfaWarningShown, s.inBrowser);
      }
    case RefreshFinally(_) =>
  }

  /** The budgets of a step are settled by the one request and the refresh it touches. */
  lemma UpdateSpends(s: Session, s': Session, r: nat)
    requires r < |s.requests| == |s'.requests| && s'.requests == s.requests[r := s'.requests[r]]
    requires StepsLeft(s'.requests[r]) + RefreshStepsLeft(s') + 1 <= StepsLeft(s.requests[r]) + RefreshStepsLeft(s)
    requires |s'.refreshes| + PostsLeft(s'.requests[r]) <= |s.refreshes| + PostsLeft(s.requests[r])
    ensures Budget(s') + 1 <= Budget(s) && PostBudget(s') <= PostBudget(s)
  {
    TotalUpdate(s.requests, r, s'.requests[r], StepsLeft);
    TotalUpdate(s.requests, r, s'.requests[r], PostsLeft);
  }

  lemma RequestStepSpends(s: Session, e: Event, r: nat)
    requires Inv(s) && Enabled(s, e)
    requires e == Send(r) || e == Resume(r) || (e.Answer? && e.r == r)
    ensures Budget(Next(s, e)) + 1 <= Budget(s)
    ensures PostBudget(Next(s, e)) <= PostBudget(s)
  {
    var s' := Next(s, e);
    assert Lawful(s.requests[r], s.refreshes, s.inBrowser);
    assert s'.requests == s.requests[r := s'.requests[r]];
    UpdateSpends(s, s', r);
  }

  lemma {:induction false} RunKeepsInv(s: Session, events: seq<Event>)
    requires Inv(s) && ValidRun(s, events)
    ensures Inv(After(s, events))
    decreases |events|
  {
    if events != [] {
      StepKeepsInv(s, events[0]);
      RunKeepsInv(Next(s, events[0]), events[1..]);
    }
  }

  lemma {:induction false} RunKeepsShape(s: Session, events: seq<Event>)
    requires ValidRun(s, events)
    ensures |After(s, events).requests| == |s.requests| && After(s, events).inBrowser == s.inBrowser
    decreases |events|
  {
    if events != [] {
      RunKeepsShape(Next(s, events[0]), events[1..]);
    }
  }

  lemma {:induction false} RunSpendsBudget(s: Session, events: seq<Event>)
    requires Inv(s) && ValidRun(s, events)
    ensures |events| + Budget(After(s, events)) <= Budget(s)
    ensures PostBudget(After(s, events)) <= PostBudget(s)
    decreases |events|
  {
    if events != [] {
      StepKeepsInv(s, events[0]);
      StepSpendsBudget(s, events[0]);
      RunSpendsBudget(Next(s, events[0]), events[1..]);
    }
  }

  // ---------- Theorems over whole runs ----------

  /** At most one refresh runs, the promise variable is set exactly while it does, and no
      refresh ever waits for a refresh: whatever the interleaving and the server's replies. */
  lemma OneRefreshAtATime(urls: seq<string>, inBrowser: bool, events: seq<Event>)
    requires ValidRun(Init(urls, inBrowser), events)
    ensures var s := After(Init(urls, inBrowser), events);
      && (forall j, k | 0 <= j < |s.refreshes| && 0 <= k < |s.refreshes| ::
            s.refreshes[j].Settled? || s.refreshes[k].Settled? || j == k)
      && (s.refreshPromise.Some? <==> exists k :: 0 <= k < |s.refreshes| && !s.refreshes[k].Settled?)
      && (forall k :: 0 <= k < |s.refreshes| ==> !s.refreshes[k].SelfWaiting?)
      && s.mfaToasts <= 1
  {
    RunKeepsInv(Init(urls, inBrowser), events);
    var s := After(Init(urls, inBrowser), events);
    if s.refreshPromise.Some? {
      assert !s.refreshes[s.refreshPromise.value].Settled?;
    }
  }

  /** All that a finished request can have gone through: five stories, no other. */
  lemma FinishedStories(urls: seq<string>, inBrowser: bool, events: seq<Event>, r: nat)
    requires ValidRun(Init(urls, inBrowser), events)
    requires r < |After(Init(urls, inBrowser), events).requests|
    requires After(Init(urls, inBrowser), events).requests[r].phase.Finished?
    ensures var s := After(Init(urls, inBrowser), events);
      var q := s.requests[r];
      || EndsUnretried(q.trace, q.url, inBrowser)
      || EndsRefused(q.trace, q.url, s.refreshes, inBrowser)
      || (Replays(q.trace, q.url, s.refreshes) && EndsWithReply(q.trace[4..], q.url, inBrowser))
  {
    RunKeepsInv(Init(urls, inBrowser), events);
    RunKeepsShape(Init(urls, inBrowser), events);
    var s := After(Init(urls, inBrowser), events);
    assert Lawful(s.requests[r], s.refreshes, s.inBrowser);
  }

  /** Every run is finite: n requests allow at most 6n steps, 2n sends and n refreshes. */
  lemma RunBounds(urls: seq<string>, inBrowser: bool, events: seq<Event>)
    requires ValidRun(Init(urls, inBrowser), events)
    ensures |events| <= 6 * |urls|
    ensures |After(Init(urls, inBrowser), events).refreshes| <= |urls|
    ensures Total(After(Init(urls, inBrowser), events).requests, Sends) <= 2 * |urls|
  {
    var init := Init(urls, inBrowser);
    RunKeepsInv(init, events);
    RunKeepsShape(init, events);
    RunSpendsBudget(init, events);
    TotalAtMost(init.requests, StepsLeft, 6);
    TotalAtMost(init.requests, PostsLeft, 1);
    var s := After(init, events);
    forall r | 0 <= r < |s.requests| ensures Sends(s.requests[r]) <= 2 {
      SentTwiceAtMost(s.requests[r], s.refreshes, s.inBrowser);
    }
    TotalAtMost(s.requests, Sends, 2);
  }

  lemma SentTwiceAtMost(q: Request, refreshes: seq<Refresh>, inBrowser: bool)
    requires Lawful(q, refreshes, inBrowser)
    ensures Sends(q) <= 2
  {
    var t := q.trace;
    if q.phase.Finished? {
      if !q.retried {
        assert t == [Sent] + t[1..];
        ReplyActsSendNothing(t[1..], q.url, inBrowser);
      } else if Replays(t, q.url, refreshes) {
        assert t == [Sent, t[1], Resumed(true), Sent] + t[4..];
        if EndsWithReply(t[4..], q.url, inBrowser) { ReplyActsSendNothing(t[4..], q.url, inBrowser); }
      }
    } else if q.phase.InFlight? && q.retried {
      assert t == t[..4] == [Sent, t[1], Resumed(true), Sent];
    }
  }

  lemma ReplyActsSendNothing(acts: seq<Act>, url: string, inBrowser: bool)
    requires EndsWithReply(acts, url, inBrowser)
    ensures multiset(acts)[Sent] == 0
  {}

  ghost predicate Quiet(s: Session) { forall e :: !Enabled(s, e) }

  /** No deadlock: a run that cannot go on has finished every request and every refresh. */
  lemma QuietMeansDone(urls: seq<string>, inBrowser: bool, events: seq<Event>)
    requires ValidRun(Init(urls, inBrowser), events)
    ensures var s := After(Init(urls, inBrowser), events);
      Quiet(s) <==> s.refreshPromise == None && forall r :: 0 <= r < |s.requests| ==> s.requests[r].phase.Finished?
  {
    RunKeepsInv(Init(urls, inBrowser), events);
    var s := After(Init(urls, inBrowser), events);
    if s.refreshPromise.Some? {
      RunningRefreshCanStep(s);
    } else {
      forall r | 0 <= r < |s.requests| && !s.requests[r].phase.Finished?
        ensures exists e :: Enabled(s, e)
      {
        UnfinishedCanStep(s, r);
      }
    }
  }

  lemma RunningRefreshCanStep(s: Session)
    requires Inv(s) && s.refreshPromise.Some?
    ensures exists e :: Enabled(s, e)
  {
    var k := s.refreshPromise.value;
    assert Enabled(s, RefreshAnswer(k, Success)) || Enabled(s, RefreshFinally(k));
  }

  lemma UnfinishedCanStep(s: Session, r: nat)
    requires Inv(s) && s.refreshPromise == None
    requires r < |s.requests| && !s.requests[r].phase.Finished?
    ensures exists e :: Enabled(s, e)
  {
    assert Lawful(s.requests[r], s.refreshes, s.inBrowser);
    assert Enabled(s, Send(r)) || Enabled(s, Answer(r, Success)) || Enabled(s, Resume(r));
  }

  /** Requests that joined one refresh resume with one outcome, whatever started since. */
  lemma JoinersShareTheOutcome(urls: seq<string>, inBrowser: bool, events: seq<Event>, r: nat, q: nat)
    requires ValidRun(Init(urls, inBrowser), events) && r < |urls| && q < |urls|
    ensures var s := After(Init(urls, inBrowser), events);
      |s.requests| == |urls| &&
      var t, u := s.requests[r].trace, s.requests[q].trace;
      |t| > 2 && |u| > 2 && t[1].Suspended? && u[1].Suspended? && t[1].refresh == u[1].refresh
      ==> t[2] == u[2]
  {
    RunKeepsInv(Init(urls, inBrowser), events);
    RunKeepsShape(Init(urls, inBrowser), events);
    var s := After(Init(urls, inBrowser), events);
    SuspendedThenResumed(s.requests[r], s.refreshes, inBrowser);
    SuspendedThenResumed(s.requests[q], s.refreshes, inBrowser);
  }

  lemma SuspendedThenResumed(q: Request, refreshes: seq<Refresh>, inBrowser: bool)
    requires Lawful(q, refreshes, inBrowser)
    ensures |q.trace| > 2 && q.trace[1].Suspended?
      ==> q.trace[2].Resumed? && SettledAs(refreshes, q.trace[1].refresh, q.trace[2].refreshed)
  {
    var t := q.trace;
    if |t| >= 4 && q.retried && Replays(t, q.url, refreshes) {
      assert t[..4][2] == Resumed(true);
    } else if q.phase.Finished? && !q.retried && |t| > 2 {
      assert t[1..][0] == t[1];
    }
  }
}
