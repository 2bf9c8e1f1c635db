/** The notification bell: it polls the unread notifications, polls may overlap and answer in
    any order, and an item not seen before is announced in a pop-up. */
module Announcer {
  import opened Wrappers

  datatype Id = Id(text: string)

  datatype Item = Item(id: Id, title: string, body: string)

  /** `response.data.data` and `response.data.meta?.total`, either of which may be absent. */
  datatype Response = Response(data: Option<seq<Item>>, total: Option<nat>)

  function Unread(response: Response): seq<Item> {
    match response.data
    case Some(items) => items
    case None => []
  }

  function Total(response: Response): nat {
    match response.total
    case Some(n) => n
    case None => 0
  }

  // ---------- Counting ids ----------

  function Count(items: seq<Item>, id: Id): nat {
    if items == [] then 0 else (if items[0].id == id then 1 else 0) + Count(items[1..], id)
  }

  function Ids(items: seq<Item>): set<Id> { set k | 0 <= k < |items| :: items[k].id }

  /** `unread.filter((item) => !knownIds.has(item.id))` */
  function Fresh(items: seq<Item>, known: set<Id>): seq<Item> {
    if items == [] then []
    else if items[0].id in known then Fresh(items[1..], known)
    else [items[0]] + Fresh(items[1..], known)
  }

  lemma {:induction false} CountAppend(a: seq<Item>, b: seq<Item>, id: Id)
    ensures Count(a + b, id) == Count(a, id) + Count(b, id)
  {
    if a == [] {
      assert a + b == b;
    } else {
      CountAppend(a[1..], b, id);
      assert (a + b)[1..] == a[1..] + b;
    }
  }

  lemma {:induction false} CountMeansMember(items: seq<Item>, id: Id)
    ensures Count(items, id) > 0 <==> id in Ids(items)
  {
    if items != [] {
      CountMeansMember(items[1..], id);
      assert forall k :: 1 <= k < |items| ==> items[k] == items[1..][k - 1];
      if id in Ids(items[1..]) {
        var k :| 0 <= k < |items[1..]| && items[1..][k].id == id;
        assert items[k + 1].id == id;
      }
    }
  }

  lemma {:induction false} CountFresh(items: seq<Item>, known: set<Id>, id: Id)
    ensures Count(Fresh(items, known), id) == if id in known then 0 else Count(items, id)
  {
    if items != [] {
      CountFresh(items[1..], known, id);
      var rest := Fresh(items[1..], known);
      assert ([items[0]] + rest)[1..] == rest;
    }
  }

  // ---------- The machine ----------

  /** One mounted bell. `polls[k]` says whether poll `k` is still unanswered; `toasts` lists
      the items announced so far. */
  datatype Bell = Bell(unreadCount: nat, knownIds: Option<set<Id>>, toasts: seq<Item>, polls: seq<bool>)

  /** A poll is started by the mount, the interval, or a `notifications:updated` event. */
  datatype Event = Poll | Answer(k: nat, response: Response) | Fail(k: nat)

  const MOUNTED := Bell(0, None, [], [])

  function OnResponse(b: Bell, response: Response): Bell {
    var unread := Unread(response);
    match b.knownIds
    case None => b.(unreadCount := Total(response), knownIds := Some(Ids(unread)))
    case Some(known) =>
      b.(unreadCount := Total(response), knownIds := Some(known + Ids(unread)),
         toasts := b.toasts + Fresh(unread, known))
  }

  predicate Enabled(b: Bell, e: Event) {
    match e
    case Poll => true
    case Answer(k, _) => k < |b.polls| && b.polls[k]
    case Fail(k) => k < |b.polls| && b.polls[k]
  }

  function Next(b: Bell, e: Event): Bell
    requires Enabled(b, e)
  {
    match e
    case Poll => b.(polls := b.polls + [true])
    case Answer(k, response) => OnResponse(b.(polls := b.polls[k := false]), response)
    case Fail(k) => b.(polls := b.polls[k := false])
  }

  /** The bells of a run: `bells[i]` is the bell before event `i`. */
  ghost predicate ValidRun(bells: seq<Bell>, events: seq<Event>) {
    && |bells| == |events| + 1
    && bells[0] == MOUNTED
    && forall i | 0 <= i < |events| :: Enabled(bells[i], events[i]) && bells[i + 1] == Next(bells[i], events[i])
  }

  /** The responses processed among the first `n` events, in order of arrival. */
  function Processed(events: seq<Event>, n: nat): seq<Response>
    requires n <= |events|
  {
    if n == 0 then []
    else
      match events[n - 1]
      case Answer(_, response) => Processed(events, n - 1) + [response]
      case _ => Processed(events, n - 1)
  }

  // ---------- What is announced ----------

  predicate Appears(responses: seq<Response>, id: Id) {
    exists k :: 0 <= k < |responses| && Count(Unread(responses[k]), id) > 0
  }

  predicate FirstIn(responses: seq<Response>, id: Id, k: nat) {
    && k < |responses|
    && Count(Unread(responses[k]), id) > 0
    && forall j :: 0 <= j < k ==> Count(Unread(responses[j]), id) == 0
  }

  /** The law of the bell for one id, over the responses processed so far. */
  ghost predicate Announced(b: Bell, responses: seq<Response>, id: Id) {
    && (b.knownIds.None? <==> responses == [])
    && (b.knownIds.Some? ==> (id in b.knownIds.value <==> Appears(responses, id)))
    && (!Appears(responses, id) ==> Count(b.toasts, id) == 0)
    && (forall k: nat :: FirstIn(responses, id, k) ==>
          Count(b.toasts, id) == if k == 0 then 0 else Count(Unread(responses[k]), id))
  }

  lemma AppearsStep(responses: seq<Response>, response: Response, id: Id)
    ensures Appears(responses + [response], id)
      <==> Appears(responses, id) || Count(Unread(response), id) > 0
  {
    var all := responses + [response];
    if Appears(responses, id) {
      var k :| 0 <= k < |responses| && Count(Unread(responses[k]), id) > 0;
      assert all[k] == responses[k];
    }
    assert all[|responses|] == response;
  }

  lemma FirstInStep(responses: seq<Response>, response: Response, id: Id, k: nat)
    requires FirstIn(responses + [response], id, k)
    ensures if k < |responses| then FirstIn(responses, id, k) else !Appears(responses, id) && k == |responses|
  {
    var all := responses + [response];
    forall j | 0 <= j < |responses| ensures all[j] == responses[j] {}
  }

  lemma OnResponseKeepsLaw(b: Bell, responses: seq<Response>, response: Response, id: Id)
    requires Announced(b, responses, id)
    ensures Announced(OnResponse(b, response), responses + [response], id)
  {
    var all := responses + [response];
    var b' := OnResponse(b, response);
    var unread := Unread(response);
    CountMeansMember(unread, id);
    AppearsStep(responses, response, id);
    if b.knownIds.Some? {
      CountFresh(unread, b.knownIds.value, id);
      CountAppend(b.toasts, Fresh(unread, b.knownIds.value), id);
    }
    forall k: nat | FirstIn(all, id, k)
      ensures Count(b'.toasts, id) == if k == 0 then 0 else Count(Unread(all[k]), id)
    {
      FirstInStep(responses, response, id, k);
      if k < |responses| {
        assert all[k] == responses[k] && Appears(responses, id);
      }
    }
  }

  lemma NextKeepsLaw(b: Bell, e: Event, responses: seq<Response>, id: Id)
    requires Enabled(b, e) && Announced(b, responses, id)
    ensures Announced(Next(b, e), if e.Answer? then responses + [e.response] else responses, id)
  {
    match e {
      case Answer(k, response) => OnResponseKeepsLaw(b.(polls := b.polls[k := false]), responses, response, id);
      case _ =>
    }
  }

  lemma {:induction false} LawHolds(bells: seq<Bell>, events: seq<Event>, n: nat, id: Id)
    requires ValidRun(bells, events) && n <= |events|
    ensures Announced(bells[n], Processed(events, n), id)
  {
    if n > 0 {
      var i := n - 1;
      LawHolds(bells, events, i, id);
      assert bells[i + 1] == Next(bells[i], events[i]);
      NextKeepsLaw(bells[i], events[i], Processed(events, i), id);
    }
  }

  /** In every run, an item is announced as often as the first processed response that lists
      it does so, and never if that is the first response of all. */
  lemma AnnouncementLaw(bells: seq<Bell>, events: seq<Event>, n: nat, id: Id)
    requires ValidRun(bells, events) && n <= |events|
    ensures var responses := Processed(events, n);
      && (!Appears(responses, id) ==> Count(bells[n].toasts, id) == 0)
      && (forall k: nat :: FirstIn(responses, id, k) ==>
            Count(bells[n].toasts, id) == if k == 0 then 0 else Count(Unread(responses[k]), id))
  {
    LawHolds(bells, events, n, id);
  }

  lemma KnownLaw(bells: seq<Bell>, events: seq<Event>, n: nat, id: Id)
    requires ValidRun(bells, events) && n <= |events|
    ensures bells[n].knownIds.None? <==> Processed(events, n) == []
    ensures bells[n].knownIds.Some? ==> (id in bells[n].knownIds.value <==> Appears(Processed(events, n), id))
  {
    LawHolds(bells, events, n, id);
  }

  /** The known ids are those of all processed responses; `None` until the first one. */
  lemma KnownIdsAreTheUnion(bells: seq<Bell>, events: seq<Event>, n: nat)
    requires ValidRun(bells, events) && n <= |events|
    ensures var known, responses := bells[n].knownIds, Processed(events, n);
      && (known.None? <==> responses == [])
      && (known.Some? ==> forall id :: id in known.value <==> Appears(responses, id))
  {
    KnownLaw(bells, events, n, Id(""));
    forall id {:trigger Appears(Processed(events, n), id)} | bells[n].knownIds.Some?
      ensures id in bells[n].knownIds.value <==> Appears(Processed(events, n), id)
    {
      KnownLaw(bells, events, n, id);
    }
  }

  lemma {:induction false} SomewhereFirst(responses: seq<Response>, id: Id, k: nat) returns (first: nat)
    requires k < |responses| && Count(Unread(responses[k]), id) > 0
    ensures first <= k && FirstIn(responses, id, first)
  {
    first := k;
    if j :| 0 <= j < k && Count(Unread(responses[j]), id) > 0 {
      first := SomewhereFirst(responses, id, j);
    }
  }

  /** No response lists an id twice. */
  ghost predicate UniqueIds(responses: seq<Response>) {
    forall k, id :: 0 <= k < |responses| ==> Count(Unread(responses[k]), id) <= 1
  }

  /** With ids unique in each response, an id is announced once if it appears later than the
      first response and not in it, and otherwise never. */
  lemma AnnouncedExactlyOnce(bells: seq<Bell>, events: seq<Event>, n: nat, id: Id)
    requires ValidRun(bells, events) && n <= |events| && UniqueIds(Processed(events, n))
    ensures var responses := Processed(events, n);
      Count(bells[n].toasts, id)
      == if Appears(responses, id) && Count(Unread(responses[0]), id) == 0 then 1 else 0
  {
    var responses := Processed(events, n);
    AnnouncementLaw(bells, events, n, id);
    if Appears(responses, id) {
      var k :| 0 <= k < |responses| && Count(Unread(responses[k]), id) > 0;
      var first := SomewhereFirst(responses, id, k);
    }
  }

  /** Never announced twice, exactly when no response after the first brings in a new id twice. */
  lemma AnnouncedAtMostOnceIff(bells: seq<Bell>, events: seq<Event>, n: nat, id: Id)
    requires ValidRun(bells, events) && n <= |events|
    ensures var responses := Processed(events, n);
      Count(bells[n].toasts, id) <= 1
      <==> forall k: nat :: FirstIn(responses, id, k) && k > 0 ==> Count(Unread(responses[k]), id) == 1
  {
    var responses := Processed(events, n);
    AnnouncementLaw(bells, events, n, id);
    if Appears(responses, id) {
      var k :| 0 <= k < |responses| && Count(Unread(responses[k]), id) > 0;
      var first := SomewhereFirst(responses, id, k);
    }
  }

  /** The badge shows the total of the response that arrived last. */
  lemma {:induction false} BadgeIsLastArrived(bells: seq<Bell>, events: seq<Event>, n: nat)
    requires ValidRun(bells, events) && n <= |events|
    ensures var responses := Processed(events, n);
      bells[n].unreadCount == if responses == [] then 0 else Total(responses[|responses| - 1])
  {
    if n > 0 {
      BadgeIsLastArrived(bells, events, n - 1);
      assert bells[n - 1 + 1] == Next(bells[n - 1], events[n - 1]);
    }
  }

  // ---------- When the badge is right ----------

  /** The newest poll answered so far (polls are numbered as they are sent), and its response. */
  datatype Answered = Answered(k: nat, response: Response)

  function Newest(events: seq<Event>, n: nat): Option<Answered>
    requires n <= |events|
  {
    if n == 0 then None
    else
      var before := Newest(events, n - 1);
      match events[n - 1]
      case Answer(k, response) => if before.Some? && k < before.value.k then before else Some(Answered(k, response))
      case _ => before
  }

  function NewestTotal(events: seq<Event>, n: nat): nat
    requires n <= |events|
  {
    match Newest(events, n)
    case Some(newest) => Total(newest.response)
    case None => 0
  }

  predicate BadgeIsRight(bells: seq<Bell>, events: seq<Event>, n: nat)
    requires n < |bells| && n <= |events|
  {
    bells[n].unreadCount == NewestTotal(events, n)
  }

  /** Event `i` answers a poll although a poll sent after it was answered before. */
  predicate Late(events: seq<Event>, i: nat)
    requires i < |events|
  {
    events[i].Answer? && exists j :: 0 <= j < i && events[j].Answer? && events[j].k > events[i].k
  }

  /** The newest answer is an answer, and of the greatest number. */
  lemma {:induction false} NewestIsGreatest(events: seq<Event>, n: nat)
    requires n <= |events|
    ensures Newest(events, n).None? <==> forall j :: 0 <= j < n ==> !events[j].Answer?
    ensures Newest(events, n).Some? ==>
      var newest := Newest(events, n).value;
      && (exists j :: 0 <= j < n && events[j] == Answer(newest.k, newest.response))
      && (forall j :: 0 <= j < n && events[j].Answer? ==> events[j].k <= newest.k)
  {
    if n > 0 {
      NewestIsGreatest(events, n - 1);
    }
  }

  lemma LateIsOlder(events: seq<Event>, i: nat)
    requires i < |events| && events[i].Answer?
    ensures Late(events, i) <==> Newest(events, i).Some? && events[i].k < Newest(events, i).value.k
  {
    NewestIsGreatest(events, i);
  }

  /** A late answer leaves the newest one as it is; any other answer becomes the newest. */
  lemma NewestStep(events: seq<Event>, i: nat)
    requires i < |events|
    ensures NewestTotal(events, i + 1)
      == if events[i].Answer? && !Late(events, i) then Total(events[i].response) else NewestTotal(events, i)
  {
    if events[i].Answer? {
      LateIsOlder(events, i);
    }
  }

  /** The badge is right throughout exactly when every late answer happens to carry the total of
      the newest one. */
  lemma {:induction false} BadgeIsRightIff(bells: seq<Bell>, events: seq<Event>, n: nat)
    requires ValidRun(bells, events) && n <= |events|
    ensures (forall m :: 0 <= m <= n ==> BadgeIsRight(bells, events, m))
      <==> (forall i :: 0 <= i < n && Late(events, i) ==> Total(events[i].response) == NewestTotal(events, i))
  {
    if n > 0 {
      var i := n - 1;
      BadgeIsRightIff(bells, events, i);
      NewestStep(events, i);
      assert bells[i + 1] == Next(bells[i], events[i]);
      if forall m :: 0 <= m <= i ==> BadgeIsRight(bells, events, m) {
        assert BadgeIsRight(bells, events, i);
        assert BadgeIsRight(bells, events, n)
          <==> (Late(events, i) ==> Total(events[i].response) == NewestTotal(events, i));
      }
    }
  }

  /** The same polls, answers and failures in the same order, whatever the responses say. */
  predicate SameSchedule(a: seq<Event>, b: seq<Event>) {
    && |a| == |b|
    && forall i :: 0 <= i < |a| ==> SameMoment(a[i], b[i])
  }

  predicate SameMoment(a: Event, b: Event) {
    match a
    case Poll => b.Poll?
    case Answer(k, _) => b.Answer? && b.k == k
    case Fail(k) => b == a
  }

  predicate InSendingOrder(events: seq<Event>) {
    forall i, j :: 0 <= j < i < |events| && events[j].Answer? && events[i].Answer? ==> events[j].k <= events[i].k
  }

  lemma {:induction false} SamePolls(bells: seq<Bell>, events: seq<Event>, others: seq<Event>, n: nat)
    returns (otherBells: seq<Bell>)
    requires ValidRun(bells, events) && SameSchedule(events, others) && n <= |events|
    ensures ValidRun(otherBells, others[..n]) && otherBells[n].polls == bells[n].polls
  {
    if n == 0 {
      otherBells := [MOUNTED];
    } else {
      var i := n - 1;
      var before := SamePolls(bells, events, others, i);
      assert SameMoment(events[i], others[i]) && bells[i + 1] == Next(bells[i], events[i]);
      otherBells := before + [Next(before[i], others[i])];
      assert others[..n] == others[..i] + [others[i]];
      ExtendRun(before, others[..i], others[i]);
    }
  }

  lemma ExtendRun(bells: seq<Bell>, events: seq<Event>, e: Event)
    requires ValidRun(bells, events) && Enabled(bells[|events|], e)
    ensures ValidRun(bells + [Next(bells[|events|], e)], events + [e])
  {
    var bells', events' := bells + [Next(bells[|events|], e)], events + [e];
    forall i | 0 <= i < |events'|
      ensures Enabled(bells'[i], events'[i]) && bells'[i + 1] == Next(bells'[i], events'[i])
    {
      if i < |events| {
        assert bells'[i] == bells[i] && bells'[i + 1] == bells[i + 1] && events'[i] == events[i];
      }
    }
  }

  /** The badge of this schedule is right at all times, whatever the server answers. */
  ghost predicate AlwaysRight(events: seq<Event>) {
    forall bells, others :: SameSchedule(events, others) && ValidRun(bells, others) ==>
      forall m :: 0 <= m <= |others| ==> BadgeIsRight(bells, others, m)
  }

  /** The schedule's answers, with total 1 for event `i` and 0 for all others. */
  function MarkOne(events: seq<Event>, i: nat): (others: seq<Event>)
    ensures SameSchedule(events, others)
  {
    seq(|events|, j requires 0 <= j < |events| =>
      if events[j].Answer? then Answer(events[j].k, Response(None, Some(if j == i then 1 else 0))) else events[j])
  }

  lemma {:induction false} OthersTotalZero(events: seq<Event>, i: nat, n: nat)
    requires n <= i < |events|
    ensures NewestTotal(MarkOne(events, i), n) == 0
  {
    if n > 0 {
      OthersTotalZero(events, i, n - 1);
      NewestStep(MarkOne(events, i), n - 1);
    }
  }

  /** A schedule keeps the badge right for all responses exactly when polls are answered in the
      order in which they were sent. */
  lemma AlwaysRightIff(bells: seq<Bell>, events: seq<Event>)
    requires ValidRun(bells, events)
    ensures AlwaysRight(events) <==> InSendingOrder(events)
  {
    if InSendingOrder(events) {
      forall others, bells' | SameSchedule(events, others) && ValidRun(bells', others)
        ensures forall m :: 0 <= m <= |others| ==> BadgeIsRight(bells', others, m)
      {
        OrderedIsNeverLate(events, others);
        BadgeIsRightIff(bells', others, |others|);
      }
    } else {
      var i, j :| 0 <= j < i < |events| && events[j].Answer? && events[i].Answer? && events[j].k > events[i].k;
      LateCanBeWrong(bells, events, i, j);
    }
  }

  lemma OrderedIsNeverLate(events: seq<Event>, others: seq<Event>)
    requires SameSchedule(events, others) && InSendingOrder(events)
    ensures forall i :: 0 <= i < |others| ==> !Late(others, i)
  {
    forall i | 0 <= i < |others| ensures !Late(others, i) {
      assert SameMoment(events[i], others[i]);
      forall j | 0 <= j < i && others[j].Answer? && others[i].Answer? ensures others[j].k <= others[i].k {
        assert SameMoment(events[j], others[j]);
      }
    }
  }

  lemma LateCanBeWrong(bells: seq<Bell>, events: seq<Event>, i: nat, j: nat)
    requires ValidRun(bells, events)
    requires j < i < |events| && events[j].Answer? && events[i].Answer? && events[j].k > events[i].k
    ensures !AlwaysRight(events)
  {
    var others := MarkOne(events, i);
    var n := |events|;
    var bells' := SamePolls(bells, events, others, n);
    assert others[..n] == others;
    assert others[j].Answer? && others[j].k > others[i].k && Late(others, i);
    OthersTotalZero(events, i, i);
    BadgeIsRightIff(bells', others, n);
    assert !(forall m :: 0 <= m <= n ==> BadgeIsRight(bells', others, m));
  }

  /** Two overlapping polls answered in reverse leave the older total, which is wrong whenever
      the two totals differ. */
  lemma BadgeCanGoBack(older: Response, newer: Response) returns (bells: seq<Bell>, events: seq<Event>)
    ensures ValidRun(bells, events) && events == [Poll, Poll, Answer(1, newer), Answer(0, older)]
    ensures bells[4].unreadCount == Total(older) && NewestTotal(events, 4) == Total(newer)
    ensures BadgeIsRight(bells, events, 4) <==> Total(older) == Total(newer)
  {
    events := [Poll, Poll, Answer(1, newer), Answer(0, older)];
    var b0 := MOUNTED;
    var b1 := Next(b0, Poll);
    var b2 := Next(b1, Poll);
    var b3 := Next(b2, Answer(1, newer));
    var b4 := Next(b3, Answer(0, older));
    bells := [b0, b1, b2, b3, b4];
    NewestStep(events, 0);
    NewestStep(events, 1);
    NewestStep(events, 2);
    NewestStep(events, 3);
    assert !Late(events, 2);
    assert events[2].k > events[3].k && Late(events, 3);
  }

  // ---------- The component ----------

  lemma IdsStep(items: seq<Item>, i: nat)
    requires i < |items|
    ensures Ids(items[..i + 1]) == Ids(items[..i]) + {items[i].id}
    ensures items[..i + 1] == items[..i] + [items[i]]
  {
    forall id ensures id in Ids(items[..i + 1]) <==> id in Ids(items[..i]) + {items[i].id} {
      if id in Ids(items[..i]) {
        var k :| 0 <= k < i && items[..i][k].id == id;
        assert items[..i + 1][k].id == id;
      }
      assert items[..i + 1][i].id == items[i].id;
    }
  }

  /** Adding the unseen ids one by one is adding all of them. */
  lemma FreshIds(items: seq<Item>, known: set<Id>)
    ensures known + Ids(Fresh(items, known)) == known + Ids(items)
  {
    forall id ensures id in known + Ids(Fresh(items, known)) <==> id in known + Ids(items) {
      CountFresh(items, known, id);
      CountMeansMember(items, id);
      CountMeansMember(Fresh(items, known), id);
    }
  }

  class NotificationBell {
    var unreadCount: nat
    var knownIds: Option<set<Id>>
    var toasts: seq<Item>
    ghost var polls: seq<bool>

    ghost function State(): Bell
      reads this
    {
      Bell(unreadCount, knownIds, toasts, polls)
    }

    constructor ()
      ensures State() == MOUNTED
    {
      unreadCount, knownIds, toasts, polls := 0, None, [], [];
    }

    /** `pollForNew()` up to the request: nothing changes but the request in flight. */
    method StartPoll() returns (ghost k: nat)
      modifies this
      ensures State() == Next(old(State()), Poll) && k == |old(polls)|
    {
      k := |polls|;
      polls := polls + [true];
    }

    /** The `then` branch of poll `k`. */
    method ReceiveResponse(ghost k: nat, response: Response)
      requires Enabled(State(), Answer(k, response))
      modifies this
      ensures State() == Next(old(State()), Answer(k, response))
    {
      polls := polls[k := false];
      var unread := Unread(response);
      unreadCount := Total(response);
      if knownIds.None? {
        knownIds := Some(Ids(unread));
        return;
      }
      var known := knownIds.value;
      var unseen := Fresh(unread, known);
      var before := toasts;
      var i := 0;
      while i < |unseen|
        invariant 0 <= i <= |unseen|
        invariant knownIds.Some? && knownIds.value == known + Ids(unseen[..i])
        invariant toasts == before + unseen[..i]
        invariant unreadCount == Total(response) && polls == old(polls)[k := false]
      {
        IdsStep(unseen, i);
        knownIds := Some(knownIds.value + {unseen[i].id});
        toasts := toasts + [unseen[i]];
        i := i + 1;
      }
      assert unseen[..i] == unseen;
      FreshIds(unread, known);
    }

    /** The `catch` branch: silent. */
    method ReceiveFailure(ghost k: nat)
      requires Enabled(State(), Fail(k))
      modifies this
      ensures State() == Next(old(State()), Fail(k))
    {
      polls := polls[k := false];
    }
  }
}
