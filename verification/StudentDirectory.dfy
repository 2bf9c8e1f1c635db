/** The student list screen: a debounced effect loads one page of students for the current
    page, search and refresh key, and is cancelled when any of them changes. */
module StudentDirectory {
  import opened Wrappers
  import Text

  /** The effect's dependencies. */
  datatype Params = Params(page: nat, search: string, refreshKey: nat)

  /** The query string; a search is sent trimmed, and not at all when blank. */
  datatype Query = Query(page: nat, limit: nat, search: Option<string>)

  const PAGE_SIZE: nat := 20

  function QueryOf(p: Params): Query {
    var search := Text.Trim(p.search);
    Query(p.page, PAGE_SIZE, if search == "" then None else Some(search))
  }

  datatype Student = Student(id: nat)

  /** An answer to the request; a missing or zero total or page count has a default. */
  datatype Reply = Loaded(data: Option<seq<Student>>, total: Option<nat>, totalPages: Option<nat>) | Failed

  datatype View = View(students: seq<Student>, totalItems: nat, totalPages: nat)

  function ViewOf(reply: Reply): View
    requires reply.Loaded?
  {
    View(
      match reply.data { case Some(students) => students case None => [] },
      match reply.total { case Some(n) => n case None => 0 },
      match reply.totalPages { case Some(n) => (if n == 0 then 1 else n) case None => 1 })
  }

  datatype Timer = Pending | Cleared | Fired

  datatype Request = NotSent | InFlight | Settled(reply: Reply)

  /** One run of the effect, with its `cancelled` variable, its timer and its request. */
  datatype Effect = Effect(params: Params, cancelled: bool, timer: Timer, request: Request)

  /** A request sent by an effect, given by the effect's number. */
  datatype Sent = Sent(effect: nat, query: Query)

  /** `wanted` holds the component's state variables, which the last effect may not have seen
      yet. `writes` lists the effects that set the list, in order. */
  datatype Directory = Directory(
    wanted: Params,
    mounted: bool,
    loading: bool,
    view: View,
    effects: seq<Effect>,
    sent: seq<Sent>,
    writes: seq<nat>)

  datatype Event =
    | UpdateSearch(value: string)
    | ChangePage(page: nat)
    | Refresh                   // a student was withdrawn, edited or imported
    | Enrolled                  // an enrolment succeeded
    | Commit                    // React has rendered and runs the effects
    | Fire(k: nat)              // the 250 ms of effect k have passed
    | Answer(k: nat, reply: Reply)
    | Unmount

  function NewEffect(params: Params): Effect { Effect(params, false, Pending, NotSent) }

  const NOTHING_LOADED := View([], 0, 1)

  const FIRST_PARAMS := Params(1, "", 0)

  const MOUNTED := Directory(FIRST_PARAMS, true, true, NOTHING_LOADED, [NewEffect(FIRST_PARAMS)], [], [])

  /** The number of the last effect. */
  function Last(d: Directory): nat
    requires d.effects != []
  {
    |d.effects| - 1
  }

  /** The dependencies the last effect was run with. */
  function Committed(d: Directory): Params
    requires d.effects != []
  {
    d.effects[Last(d)].params
  }

  /** The effect's cleanup. */
  function Cleanup(e: Effect): Effect {
    e.(cancelled := true, timer := if e.timer.Pending? then Cleared else e.timer)
  }

  predicate FromUser(e: Event) { e.UpdateSearch? || e.ChangePage? || e.Refresh? || e.Enrolled? }

  predicate Enabled(d: Directory, e: Event) {
    d.effects != [] &&
    match e
    case Commit => d.mounted && d.wanted != Committed(d)
    case Fire(k) => k < |d.effects| && d.effects[k].timer.Pending?
    case Answer(k, _) => k < |d.effects| && d.effects[k].request.InFlight?
    case _ => d.mounted
  }

  function Next(d: Directory, e: Event): Directory
    requires Enabled(d, e)
  {
    match e
    case UpdateSearch(value) => d.(wanted := d.wanted.(search := value, page := 1), loading := true)
    case ChangePage(page) => d.(wanted := d.wanted.(page := page), loading := true)
    case Refresh => d.(wanted := d.wanted.(refreshKey := d.wanted.refreshKey + 1))
    case Enrolled => d.(wanted := Params(1, "", d.wanted.refreshKey + 1), loading := true)
    case Commit =>
      d.(effects := d.effects[Last(d) := Cleanup(d.effects[Last(d)])] + [NewEffect(d.wanted)])
    case Fire(k) =>
      d.(effects := d.effects[k := d.effects[k].(timer := Fired, request := InFlight)],
         sent := d.sent + [Sent(k, QueryOf(d.effects[k].params))])
    case Answer(k, reply) => OnAnswer(d, k, reply)
    case Unmount => d.(mounted := false, effects := d.effects[Last(d) := Cleanup(d.effects[Last(d)])])
  }

  function OnAnswer(d: Directory, k: nat, reply: Reply): Directory
    requires k < |d.effects|
  {
    var settled := d.(effects := d.effects[k := d.effects[k].(request := Settled(reply))]);
    if d.effects[k].cancelled then settled
    else if reply.Failed? then settled.(loading := false)
    else settled.(loading := false, view := ViewOf(reply), writes := d.writes + [k])
  }

  ghost predicate ValidRun(ds: seq<Directory>, events: seq<Event>) {
    && |ds| == |events| + 1
    && ds[0] == MOUNTED
    && forall i | 0 <= i < |events| :: Enabled(ds[i], events[i]) && ds[i + 1] == Next(ds[i], events[i])
  }

  // ---------- What every step keeps ----------

  predicate Increasing(ks: seq<nat>) { forall i, j :: 0 <= i < j < |ks| ==> ks[i] < ks[j] }

  predicate EffectInv(d: Directory, k: nat)
    requires k < |d.effects|
  {
    var e := d.effects[k];
    && (e.cancelled <==> k < |d.effects| - 1 || !d.mounted)
    && (e.timer.Pending? ==> !e.cancelled)
    && (e.request.NotSent? <==> !e.timer.Fired?)
  }

  predicate SentInv(d: Directory) {
    && (forall i, j :: 0 <= i < j < |d.sent| ==> d.sent[i].effect < d.sent[j].effect)
    && (forall i :: 0 <= i < |d.sent| ==>
          d.sent[i].effect < |d.effects| && !d.effects[d.sent[i].effect].request.NotSent?)
  }

  predicate WroteReply(d: Directory, k: nat) {
    k < |d.effects| && d.effects[k].request.Settled? && d.effects[k].request.reply.Loaded?
  }

  predicate WritesInv(d: Directory) {
    && Increasing(d.writes)
    && (forall i :: 0 <= i < |d.writes| ==> WroteReply(d, d.writes[i]))
    && d.view == (if d.writes == [] then NOTHING_LOADED else ViewOf(d.effects[d.writes[|d.writes| - 1]].request.reply))
  }

  /** The last effect, answered with a page while mounted, was the last to write. */
  predicate LastWrote(d: Directory)
    requires d.effects != []
  {
    d.mounted && WroteReply(d, Last(d)) ==> d.writes != [] && d.writes[|d.writes| - 1] == Last(d)
  }

  ghost predicate Inv(d: Directory) {
    && d.effects != []
    && (forall k :: 0 <= k < |d.effects| ==> EffectInv(d, k))
    && SentInv(d) && WritesInv(d) && LastWrote(d)
  }

  lemma EffectAndLast(d: Directory, k: nat)
    requires Inv(d) && k < |d.effects|
    ensures EffectInv(d, k) && EffectInv(d, Last(d))
  {}

  lemma StepKeepsEffects(d: Directory, e: Event, k: nat)
    requires Inv(d) && Enabled(d, e) && k < |Next(d, e).effects|
    ensures EffectInv(Next(d, e), k)
  {
    if k < |d.effects| {
      assert EffectInv(d, k);
    }
    assert EffectInv(d, Last(d));
  }

  lemma FireKeepsSent(d: Directory, k: nat)
    requires Inv(d) && Enabled(d, Fire(k))
    ensures SentInv(Next(d, Fire(k)))
  {
    assert EffectInv(d, k) && k == Last(d);
    forall i | 0 <= i < |d.sent| ensures d.sent[i].effect < k {}
  }

  lemma AnswerKeepsSent(d: Directory, k: nat, reply: Reply)
    requires Inv(d) && Enabled(d, Answer(k, reply))
    ensures SentInv(OnAnswer(d, k, reply))
  {
    forall i | 0 <= i < |d.sent| ensures d.sent[i].effect < |d.effects| {}
  }

  lemma StepKeepsSent(d: Directory, e: Event)
    requires Inv(d) && Enabled(d, e)
    ensures SentInv(Next(d, e))
  {
    match e {
      case Fire(k) => FireKeepsSent(d, k);
      case Answer(k, reply) => AnswerKeepsSent(d, k, reply);
      case _ =>
    }
  }

  lemma StepKeepsReply(d: Directory, e: Event, j: nat)
    requires Enabled(d, e) && WroteReply(d, j) && EffectInv(d, j)
    ensures WroteReply(Next(d, e), j) && Next(d, e).effects[j].request == d.effects[j].request
    ensures e.Answer? ==> e.k != j
  {}

  lemma AnswerKeepsWrites(d: Directory, k: nat, reply: Reply)
    requires Inv(d) && Enabled(d, Answer(k, reply))
    ensures WritesInv(OnAnswer(d, k, reply)) && LastWrote(OnAnswer(d, k, reply))
  {
    EffectAndLast(d, k);
    forall i | 0 <= i < |d.writes|
      ensures d.writes[i] != k && WroteReply(OnAnswer(d, k, reply), d.writes[i])
      ensures OnAnswer(d, k, reply).effects[d.writes[i]].request == d.effects[d.writes[i]].request
    {
      StepKeepsReply(d, Answer(k, reply), d.writes[i]);
    }
  }

  lemma StepKeepsWrites(d: Directory, e: Event)
    requires Inv(d) && Enabled(d, e)
    ensures WritesInv(Next(d, e)) && LastWrote(Next(d, e))
  {
    if e.Answer? {
      AnswerKeepsWrites(d, e.k, e.reply);
    } else {
      forall i | 0 <= i < |d.writes|
        ensures WroteReply(Next(d, e), d.writes[i])
        ensures Next(d, e).effects[d.writes[i]].request == d.effects[d.writes[i]].request
      {
        StepKeepsReply(d, e, d.writes[i]);
      }
    }
  }

  lemma StepKeepsInv(d: Directory, e: Event)
    requires Inv(d) && Enabled(d, e)
    ensures Inv(Next(d, e))
  {
    forall k | 0 <= k < |Next(d, e).effects| ensures EffectInv(Next(d, e), k) {
      StepKeepsEffects(d, e, k);
    }
    StepKeepsSent(d, e);
    StepKeepsWrites(d, e);
  }

  lemma {:induction false} RunKeepsInv(ds: seq<Directory>, events: seq<Event>, n: nat)
    requires ValidRun(ds, events) && n <= |events|
    ensures Inv(ds[n])
  {
    if n > 0 {
      var i := n - 1;
      RunKeepsInv(ds, events, i);
      StepKeepsInv(ds[i], events[i]);
      assert ds[i + 1] == Next(ds[i], events[i]);
    }
  }

  // ---------- Over all runs ----------

  /** At most one effect is not cancelled: the last one, and while the screen is mounted it is
      that one; unless a render is still pending it holds the current dependencies. */
  lemma OneActiveEffect(ds: seq<Directory>, events: seq<Event>, n: nat, k: nat)
    requires ValidRun(ds, events) && n <= |events| && k < |ds[n].effects|
    ensures !ds[n].effects[k].cancelled <==> ds[n].mounted && k == Last(ds[n])
    ensures !ds[n].effects[k].cancelled && !Enabled(ds[n], Commit) ==> ds[n].effects[k].params == ds[n].wanted
  {
    RunKeepsInv(ds, events, n);
    assert EffectInv(ds[n], k);
  }

  ghost predicate QueriesMatch(d: Directory) {
    forall i :: 0 <= i < |d.sent| ==>
      d.sent[i].effect < |d.effects| && d.sent[i].query == QueryOf(d.effects[d.sent[i].effect].params)
  }

  lemma StepKeepsParams(d: Directory, e: Event, k: nat)
    requires Enabled(d, e) && k < |d.effects|
    ensures k < |Next(d, e).effects| && Next(d, e).effects[k].params == d.effects[k].params
  {}

  lemma StepKeepsQueries(d: Directory, e: Event)
    requires Enabled(d, e) && QueriesMatch(d)
    ensures QueriesMatch(Next(d, e))
  {
    var d' := Next(d, e);
    forall i | 0 <= i < |d'.sent|
      ensures d'.sent[i].effect < |d'.effects| && d'.sent[i].query == QueryOf(d'.effects[d'.sent[i].effect].params)
    {
      if i < |d.sent| {
        assert d'.sent[i] == d.sent[i];
        StepKeepsParams(d, e, d.sent[i].effect);
      } else {
        StepKeepsParams(d, e, e.k);
      }
    }
  }

  lemma {:induction false} RunKeepsQueries(ds: seq<Directory>, events: seq<Event>, n: nat)
    requires ValidRun(ds, events) && n <= |events|
    ensures QueriesMatch(ds[n])
  {
    if n > 0 {
      var i := n - 1;
      RunKeepsQueries(ds, events, i);
      StepKeepsQueries(ds[i], events[i]);
      assert ds[i + 1] == Next(ds[i], events[i]);
    }
  }

  /** No effect sends two requests; a request asks for what its own effect was run with. */
  lemma OneRequestPerEffect(ds: seq<Directory>, events: seq<Event>, n: nat, i: nat, j: nat)
    requires ValidRun(ds, events) && n <= |events| && i < |ds[n].sent| && j < |ds[n].sent|
    ensures ds[n].sent[i].effect == ds[n].sent[j].effect <==> i == j
    ensures ds[n].sent[i].effect < |ds[n].effects|
    ensures ds[n].sent[i].query == QueryOf(ds[n].effects[ds[n].sent[i].effect].params)
  {
    RunKeepsInv(ds, events, n);
    RunKeepsQueries(ds, events, n);
    if i < j {
      assert ds[n].sent[i].effect < ds[n].sent[j].effect;
    } else if j < i {
      assert ds[n].sent[j].effect < ds[n].sent[i].effect;
    }
  }

  /** An answer touches the screen only if it belongs to the last effect of a mounted screen,
      and it comes after every answer shown before it. */
  lemma LatestQueryWins(ds: seq<Directory>, events: seq<Event>, n: nat)
    requires ValidRun(ds, events) && n < |events| && events[n].Answer?
    ensures var d, d', k := ds[n], ds[n + 1], events[n].k;
      && (d'.view != d.view || d'.loading != d.loading || d'.writes != d.writes ==> d.mounted && k == Last(d))
      && (d.mounted && k == Last(d) ==>
            && !d'.loading
            && (events[n].reply.Loaded? ==> d'.view == ViewOf(events[n].reply) && d'.writes == d.writes + [k])
            && (events[n].reply.Failed? ==> d'.view == d.view && d'.writes == d.writes))
      && Increasing(d'.writes)
  {
    RunKeepsInv(ds, events, n);
    RunKeepsInv(ds, events, n + 1);
    assert EffectInv(ds[n], events[n].k);
    assert ds[n + 1] == Next(ds[n], events[n]);
  }

  /** Whatever the order of timers and answers: the screen shows the page of the newest effect
      that was answered with one, and once the last effect is answered with a page, that page. */
  lemma ScreenShowsNewestAnswer(ds: seq<Directory>, events: seq<Event>, n: nat)
    requires ValidRun(ds, events) && n <= |events|
    ensures var d := ds[n];
      && d.effects != []
      && (d.writes == [] ==> d.view == NOTHING_LOADED)
      && (d.writes != [] ==>
            var k := d.writes[|d.writes| - 1];
            WroteReply(d, k) && d.view == ViewOf(d.effects[k].request.reply)
            && forall i :: 0 <= i < |d.writes| - 1 ==> d.writes[i] < k)
      && (d.mounted && WroteReply(d, Last(d)) ==> d.view == ViewOf(d.effects[Last(d)].request.reply))
  {
    RunKeepsInv(ds, events, n);
  }

  // ---------- The spinner ----------

  predicate IsSettled(d: Directory)
    requires d.effects != []
  {
    d.effects[Last(d)].request.Settled?
  }

  /** The spinner turns, and nothing under way will stop it. */
  predicate Stalled(d: Directory)
    requires d.effects != []
  {
    d.mounted && d.loading && d.wanted == Committed(d) && IsSettled(d)
  }

  /** An action of the user that starts the spinner but asks for what is already loaded. */
  predicate AsksForWhatIsLoaded(d: Directory, e: Event) {
    d.effects != [] && IsSettled(d) &&
    match e
    case UpdateSearch(value) => Committed(d) == d.wanted.(search := value, page := 1)
    case ChangePage(page) => Committed(d) == d.wanted.(page := page)
    case _ => false
  }

  /** A refresh key never goes back, so an enrolment always reloads. */
  ghost predicate KeyInv(d: Directory) { d.effects != [] && Committed(d).refreshKey <= d.wanted.refreshKey }

  lemma {:induction false} RunKeepsKey(ds: seq<Directory>, events: seq<Event>, n: nat)
    requires ValidRun(ds, events) && n <= |events|
    ensures KeyInv(ds[n])
  {
    if n > 0 {
      RunKeepsKey(ds, events, n - 1);
      StepKeepsKey(ds[n - 1], events[n - 1]);
      assert ds[n - 1 + 1] == Next(ds[n - 1], events[n - 1]);
    }
  }

  lemma StepKeepsKey(d: Directory, e: Event)
    requires KeyInv(d) && Enabled(d, e)
    ensures KeyInv(Next(d, e))
  {
    StepKeepsParams(d, e, Last(d));
  }

  /** A step stalls the spinner exactly when the user asks for what is already loaded. */
  lemma StepStallsIff(d: Directory, e: Event)
    requires Inv(d) && KeyInv(d) && Enabled(d, e) && !Stalled(d)
    ensures Stalled(Next(d, e)) <==> AsksForWhatIsLoaded(d, e)
  {
    assert EffectInv(d, Last(d));
    match e {
      case Fire(k) => assert EffectInv(d, k);
      case Answer(k, reply) => assert EffectInv(d, k);
      case _ =>
    }
  }

  /** Once stalled, the spinner turns until the user acts again or leaves. */
  lemma StalledStays(d: Directory, e: Event)
    requires Inv(d) && Stalled(d) && Enabled(d, e) && !FromUser(e) && !e.Unmount?
    ensures Stalled(Next(d, e))
  {
    EffectAndLast(d, if e.Fire? || e.Answer? then e.k else 0);
  }

  /** A run never stalls exactly when the user never asks for what is already loaded. */
  lemma {:induction false} NeverStallsIff(ds: seq<Directory>, events: seq<Event>, n: nat)
    requires ValidRun(ds, events) && n <= |events|
    ensures forall i :: 0 <= i <= n ==> ds[i].effects != []
    ensures (forall i :: 0 <= i <= n ==> !Stalled(ds[i]))
      <==> (forall i :: 0 <= i < n ==> !AsksForWhatIsLoaded(ds[i], events[i]))
  {
    RunKeepsInv(ds, events, n);
    if n > 0 {
      var i := n - 1;
      NeverStallsIff(ds, events, i);
      RunKeepsInv(ds, events, i);
      RunKeepsKey(ds, events, i);
      assert ds[i + 1] == Next(ds[i], events[i]);
      if !Stalled(ds[i]) {
        StepStallsIff(ds[i], events[i]);
      }
    }
  }

  /** From an idle screen, choosing a page number stalls it exactly when it is the page shown. */
  lemma ClickOnActivePage(d: Directory, page: nat)
    requires Inv(d) && d.mounted && !d.loading && d.wanted == Committed(d) && IsSettled(d)
    ensures Stalled(Next(d, ChangePage(page))) <==> page == d.wanted.page
  {}

  /** From the very start: the first of several pages arrives, the user clicks on page 1 among the
      page links now shown, and the spinner stays. */
  lemma StallingRun(reply: Reply) returns (ds: seq<Directory>, events: seq<Event>)
    requires reply.Loaded? && ViewOf(reply).totalPages > 1
    ensures events == [Fire(0), Answer(0, reply), ChangePage(1)] && ValidRun(ds, events)
    ensures !ds[2].loading && ds[2].view.totalPages > 1
    ensures ds[3].effects != [] && Stalled(ds[3])
  {
    events := [Fire(0), Answer(0, reply), ChangePage(1)];
    var d1 := Next(MOUNTED, Fire(0));
    var d2 := Next(d1, Answer(0, reply));
    ds := [MOUNTED, d1, d2, Next(d2, ChangePage(1))];
  }

  // ---------- The component ----------

  class StudentImportDirectory {
    var page: nat
    var search: string
    var refreshKey: nat
    var mounted: bool
    var loading: bool
    var students: seq<Student>
    var totalItems: nat
    var totalPages: nat
    var effects: seq<Effect>
    ghost var sent: seq<Sent>
    ghost var writes: seq<nat>

    ghost function State(): Directory
      reads this
    {
      Directory(
        Params(page, search, refreshKey), mounted, loading,
        View(students, totalItems, totalPages), effects, sent, writes)
    }

    constructor ()
      ensures State() == MOUNTED
    {
      page, search, refreshKey, mounted, loading := 1, "", 0, true, true;
      students, totalItems, totalPages := [], 0, 1;
      effects := [NewEffect(FIRST_PARAMS)];
      sent, writes := [], [];
    }

    method UpdateSearch(value: string)
      requires Enabled(State(), Event.UpdateSearch(value))
      modifies this
      ensures State() == Next(old(State()), Event.UpdateSearch(value))
    {
      search := value;
      page := 1;
      loading := true;
    }

    method ChangePage(nextPage: nat)
      requires Enabled(State(), Event.ChangePage(nextPage))
      modifies this
      ensures State() == Next(old(State()), Event.ChangePage(nextPage))
    {
      loading := true;
      page := nextPage;
    }

    method BumpRefreshKey()
      requires Enabled(State(), Refresh)
      modifies this
      ensures State() == Next(old(State()), Refresh)
    {
      refreshKey := refreshKey + 1;
    }

    method AfterEnrollment()
      requires Enabled(State(), Enrolled)
      modifies this
      ensures State() == Next(old(State()), Enrolled)
    {
      search := "";
      page := 1;
      loading := true;
      refreshKey := refreshKey + 1;
    }

    /** React runs the previous cleanup, then the effect. */
    method RunEffect()
      requires Enabled(State(), Commit)
      modifies this
      ensures State() == Next(old(State()), Commit)
    {
      CancelLast();
      effects := effects + [NewEffect(Params(page, search, refreshKey))];
    }

    method CancelLast()
      requires effects != []
      modifies this`effects
      ensures effects == old(effects)[|old(effects)| - 1 := Cleanup(old(effects)[|old(effects)| - 1])]
    {
      var last := effects[|effects| - 1];
      var timer := if last.timer.Pending? then Cleared else last.timer;
      effects := effects[|effects| - 1 := last.(cancelled := true, timer := timer)];
    }

    method FireTimer(k: nat)
      requires Enabled(State(), Fire(k))
      modifies this
      ensures State() == Next(old(State()), Fire(k))
    {
      sent := sent + [Sent(k, QueryOf(effects[k].params))];
      effects := effects[k := effects[k].(timer := Fired, request := InFlight)];
    }

    /** What follows the `await` of effect `k`'s request. */
    method ReceiveAnswer(k: nat, reply: Reply)
      requires Enabled(State(), Answer(k, reply))
      modifies this
      ensures State() == Next(old(State()), Answer(k, reply))
    {
      effects := effects[k := effects[k].(request := Settled(reply))];
      if effects[k].cancelled {
        return;
      }
      match reply {
        case Loaded(data, total, pages) =>
          students := match data { case Some(rows) => rows case None => [] };
          totalItems := match total { case Some(n) => n case None => 0 };
          totalPages := match pages { case Some(n) => (if n == 0 then 1 else n) case None => 1 };
          writes := writes + [k];
        case Failed =>
      }
      loading := false;
    }

    method Leave()
      requires Enabled(State(), Unmount)
      modifies this
      ensures State() == Next(old(State()), Unmount)
    {
      mounted := false;
      CancelLast();
    }
  }
}
