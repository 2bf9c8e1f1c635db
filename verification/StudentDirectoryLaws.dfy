/** The student list screen in its own terms: what is asked of the server, what an answer puts on
    screen, and what each action of the user leads to. */
module StudentDirectoryLaws {
  import opened Wrappers
  import opened StudentDirectory
  import opened Text

  // ---------- Requests ----------

  /** The query asks for the page of its effect, twenty rows of it, and for the search without the
      white space around it; not at all when the search is blank. */
  ghost predicate AsksFor(query: Query, params: Params) {
    && query.page == params.page && query.limit == 20
    && (query.search.None? <==> Blank(params.search))
    && (query.search.Some? ==>
          && Tight(query.search.value) && query.search.value != ""
          && exists a, b :: Blank(a) && Blank(b) && params.search == a + query.search.value + b)
  }

  lemma QueryAsksFor(params: Params)
    ensures AsksFor(QueryOf(params), params)
  {
    var a, b := TrimCuts(params.search);
  }

  /** Every request of a run asks for what its own effect was run with, and no effect sends two. */
  lemma RequestsAskForTheirEffect(ds: seq<Directory>, events: seq<Event>, n: nat, i: nat, j: nat)
    requires ValidRun(ds, events) && n <= |events| && i < |ds[n].sent| && j < |ds[n].sent|
    ensures ds[n].sent[i].effect < |ds[n].effects|
    ensures AsksFor(ds[n].sent[i].query, ds[n].effects[ds[n].sent[i].effect].params)
    ensures ds[n].sent[i].effect == ds[n].sent[j].effect <==> i == j
  {
    OneRequestPerEffect(ds, events, n, i, j);
    QueryAsksFor(ds[n].effects[ds[n].sent[i].effect].params);
  }

  predicate WasSent(d: Directory, k: nat) { exists i :: 0 <= i < |d.sent| && d.sent[i].effect == k }

  predicate HasFired(d: Directory, k: nat) { k < |d.effects| && d.effects[k].timer.Fired? }

  /** A request has been sent by exactly the effects whose timer has fired. */
  ghost predicate SentIffFired(d: Directory) { forall k: nat :: WasSent(d, k) <==> HasFired(d, k) }

  lemma SentStep(d: Directory, e: Event, k: nat)
    requires Enabled(d, e)
    ensures WasSent(Next(d, e), k) <==> WasSent(d, k) || e == Fire(k)
  {
    var d' := Next(d, e);
    if i :| 0 <= i < |d.sent| && d.sent[i].effect == k {
      assert d'.sent[i] == d.sent[i];
    }
    if e == Fire(k) {
      assert d'.sent[|d.sent|].effect == k;
    }
  }

  lemma FiredStep(d: Directory, e: Event, k: nat)
    requires Enabled(d, e)
    ensures HasFired(Next(d, e), k) <==> HasFired(d, k) || e == Fire(k)
  {}

  lemma StepKeepsSentIffFired(d: Directory, e: Event)
    requires Enabled(d, e) && SentIffFired(d)
    ensures SentIffFired(Next(d, e))
  {
    forall k: nat ensures WasSent(Next(d, e), k) <==> HasFired(Next(d, e), k) {
      SentStep(d, e, k);
      FiredStep(d, e, k);
    }
  }

  lemma {:induction false} RunKeepsSentIffFired(ds: seq<Directory>, events: seq<Event>, n: nat)
    requires ValidRun(ds, events) && n <= |events|
    ensures SentIffFired(ds[n])
  {
    if n > 0 {
      var i := n - 1;
      RunKeepsSentIffFired(ds, events, i);
      StepKeepsSentIffFired(ds[i], events[i]);
      assert ds[i + 1] == Next(ds[i], events[i]);
    }
  }

  // ---------- Answers ----------

  /** What a loaded answer puts on screen: what it brings, and otherwise no rows, 0 and 1. */
  predicate Shows(view: View, reply: Reply) {
    && reply.Loaded?
    && (reply.data.Some? ==> view.students == reply.data.value)
    && (reply.data.None? ==> view.students == [])
    && (reply.total.Some? ==> view.totalItems == reply.total.value)
    && (reply.total.None? ==> view.totalItems == 0)
    && (reply.totalPages.Some? && reply.totalPages.value != 0 ==> view.totalPages == reply.totalPages.value)
    && (reply.totalPages == None || reply.totalPages == Some(0) ==> view.totalPages == 1)
  }

  /** At any time of a run the screen shows the newest answer written, which is that of the last
      effect once it is there; before the first one it is empty. */
  lemma ScreenShows(ds: seq<Directory>, events: seq<Event>, n: nat)
    requires ValidRun(ds, events) && n <= |events|
    ensures var d := ds[n];
      && d.effects != []
      && (n == 0 ==> d.mounted && d.loading && d.effects == [Effect(Params(1, "", 0), false, Pending, NotSent)])
      && (d.writes == [] ==> d.view == View([], 0, 1))
      && (d.writes != [] ==>
            var k := d.writes[|d.writes| - 1];
            WroteReply(d, k) && Shows(d.view, d.effects[k].request.reply))
      && (d.mounted && WroteReply(d, |d.effects| - 1) ==> Shows(d.view, d.effects[|d.effects| - 1].request.reply))
  {
    ScreenShowsNewestAnswer(ds, events, n);
  }

  /** The answer of the last effect of a mounted screen stops the spinner, and a page it brings is
      shown; an answer to any other effect changes nothing on screen. */
  lemma AnswerOnScreen(ds: seq<Directory>, events: seq<Event>, n: nat)
    requires ValidRun(ds, events) && n < |events| && events[n].Answer?
    ensures var d, d', k, reply := ds[n], ds[n + 1], events[n].k, events[n].reply;
      && k < |d.effects| && d'.effects[k].request == Settled(reply)
      && (if d.mounted && k == |d.effects| - 1
          then !d'.loading && (if reply.Loaded? then Shows(d'.view, reply) else d'.view == d.view)
          else d'.loading == d.loading && d'.view == d.view)
  {
    LatestQueryWins(ds, events, n);
    assert ds[n + 1] == Next(ds[n], events[n]);
  }

  // ---------- Actions of the user ----------

  /** A search goes to page 1, a page keeps the search, a refresh keeps both, and an enrolment
      goes to page 1 of the whole list; all but the refresh start the spinner. */
  lemma WhatActionsAsk(d: Directory, e: Event)
    requires Enabled(d, e) && FromUser(e)
    ensures var d' := Next(d, e);
      && d'.wanted.page == (match e case ChangePage(page) => page case Refresh => d.wanted.page case _ => 1)
      && d'.wanted.search == (match e case UpdateSearch(value) => value case Enrolled => "" case _ => d.wanted.search)
      && d'.wanted.refreshKey == d.wanted.refreshKey + (if e.Refresh? || e.Enrolled? then 1 else 0)
      && d'.loading == (d.loading || !e.Refresh?)
      && d'.effects == d.effects && d'.view == d.view && d'.mounted
  {}

  /** A render runs the effect exactly when one of the three dependencies changed. The effect then
      running is new, has the current dependencies, and its timer is set. */
  lemma RenderCatchesUp(d: Directory)
    requires d.effects != [] && d.mounted
    ensures Enabled(d, Commit) <==>
      var seen := d.effects[|d.effects| - 1].params;
      d.wanted.page != seen.page || d.wanted.search != seen.search || d.wanted.refreshKey != seen.refreshKey
    ensures Enabled(d, Commit) ==>
      var d', n := Next(d, Commit), |d.effects|;
      && |d'.effects| == n + 1
      && d'.effects[n] == Effect(d.wanted, false, Pending, NotSent)
      && d'.effects[n - 1].cancelled && !d'.effects[n - 1].timer.Pending?
      && d'.effects[..n - 1] == d.effects[..n - 1]
      && d'.view == d.view && d'.loading == d.loading && !Enabled(d', Commit)
  {}

  /** A withdrawal, an edit, an import or an enrolment always leads to a new request. */
  lemma RefreshAlwaysReloads(ds: seq<Directory>, events: seq<Event>, n: nat)
    requires ValidRun(ds, events) && n < |events| && (events[n].Refresh? || events[n].Enrolled?)
    ensures Enabled(ds[n + 1], Commit)
  {
    RunKeepsKey(ds, events, n);
    assert ds[n + 1] == Next(ds[n], events[n]);
  }

  ghost predicate Quiet(d: Directory) {
    forall e: Event | e.Commit? || e.Fire? || e.Answer? :: !Enabled(d, e)
  }

  /** Left alone, a mounted screen comes to rest: with the answer to a request for exactly the
      current page, search and refresh key. */
  lemma QuietMeansCurrent(ds: seq<Directory>, events: seq<Event>, n: nat) returns (i: nat)
    requires ValidRun(ds, events) && n <= |events| && ds[n].mounted && Quiet(ds[n])
    ensures var d := ds[n];
      && d.effects != [] && i < |d.sent| && d.sent[i].effect == |d.effects| - 1
      && AsksFor(d.sent[i].query, d.wanted)
      && d.effects[|d.effects| - 1].request.Settled?
      && (d.effects[|d.effects| - 1].request.reply.Loaded? ==>
            Shows(d.view, d.effects[|d.effects| - 1].request.reply))
  {
    var d := ds[n];
    RunKeepsInv(ds, events, n);
    RunKeepsSentIffFired(ds, events, n);
    var last := |d.effects| - 1;
    assert EffectInv(d, last);
    assert !Enabled(d, Commit) && !Enabled(d, Fire(last)) && !Enabled(d, Answer(last, Failed));
    TimerOfActive(ds, events, n);
    assert HasFired(d, last) && WasSent(d, last);
    i :| 0 <= i < |d.sent| && d.sent[i].effect == last;
    RequestsAskForTheirEffect(ds, events, n, i, i);
    ScreenShows(ds, events, n);
  }

  /** Only a cleanup clears a timer. */
  predicate ClearedIsCancelled(d: Directory) {
    forall k :: 0 <= k < |d.effects| && d.effects[k].timer.Cleared? ==> d.effects[k].cancelled
  }

  lemma {:induction false} TimerOfActive(ds: seq<Directory>, events: seq<Event>, n: nat)
    requires ValidRun(ds, events) && n <= |events|
    ensures ClearedIsCancelled(ds[n])
  {
    if n > 0 {
      var i := n - 1;
      TimerOfActive(ds, events, i);
      assert ds[i + 1] == Next(ds[i], events[i]);
    }
  }
}
