/** What the notification bell shows, item by item: the pop-ups in order, the known ids and the
    badge, in terms of the responses as they came. */
module AnnouncerLaws {
  import opened Announcer
  import opened Wrappers

  /** The items a response brings. */
  function Listed(response: Response): seq<Item> {
    if response.data.Some? then response.data.value else []
  }

  /** The place of an item: item `p` of response `k`. */
  datatype Place = Place(k: nat, p: nat)

  predicate Valid(responses: seq<Response>, m: Place) { m.k < |responses| && m.p < |Listed(responses[m.k])| }

  function ItemAt(responses: seq<Response>, m: Place): Item
    requires Valid(responses, m)
  {
    Listed(responses[m.k])[m.p]
  }

  predicate Before(m: Place, n: Place) { m.k < n.k || (m.k == n.k && m.p < n.p) }

  /** One of the first `k` responses brings an item with this id. */
  ghost predicate SeenBefore(responses: seq<Response>, k: nat, id: Id) {
    exists m: Place :: m.k < k && Valid(responses, m) && ItemAt(responses, m).id == id
  }

  /** An item to be announced: not of the first response, and its id not brought before. */
  ghost predicate New(responses: seq<Response>, m: Place) {
    m.k > 0 && Valid(responses, m) && !SeenBefore(responses, m.k, ItemAt(responses, m).id)
  }

  /** The pop-ups are the items at these places, which are all the new ones, in order of arrival. */
  ghost predicate Announces(responses: seq<Response>, places: seq<Place>, toasts: seq<Item>) {
    && |toasts| == |places|
    && (forall i :: 0 <= i < |places| ==> Valid(responses, places[i]) && toasts[i] == ItemAt(responses, places[i]))
    && (forall i, j :: 0 <= i < j < |places| ==> Before(places[i], places[j]))
    && (forall m: Place :: m in places <==> New(responses, m))
  }

  lemma SeenMeansAppears(responses: seq<Response>, id: Id)
    ensures SeenBefore(responses, |responses|, id) <==> Appears(responses, id)
  {
    if SeenBefore(responses, |responses|, id) {
      var m: Place :| m.k < |responses| && Valid(responses, m) && ItemAt(responses, m).id == id;
      CountMeansMember(Unread(responses[m.k]), id);
    }
    if Appears(responses, id) {
      var k :| 0 <= k < |responses| && Count(Unread(responses[k]), id) > 0;
      CountMeansMember(Unread(responses[k]), id);
      var p :| 0 <= p < |Unread(responses[k])| && Unread(responses[k])[p].id == id;
      assert Valid(responses, Place(k, p)) && ItemAt(responses, Place(k, p)).id == id;
    }
  }

  // ---------- One response ----------

  /** The filter keeps the items with unknown ids, in order: at these positions. */
  lemma {:induction false} FreshPositions(items: seq<Item>, known: set<Id>) returns (ps: seq<nat>)
    ensures |ps| == |Fresh(items, known)|
    ensures forall i :: 0 <= i < |ps| ==> ps[i] < |items| && Fresh(items, known)[i] == items[ps[i]]
    ensures forall i, j :: 0 <= i < j < |ps| ==> ps[i] < ps[j]
    ensures forall p: nat :: p in ps <==> p < |items| && items[p].id !in known
  {
    if items == [] {
      ps := [];
    } else {
      var rest := FreshPositions(items[1..], known);
      var shifted := seq(|rest|, i requires 0 <= i < |rest| => rest[i] + 1);
      ShiftedPositions(rest, shifted);
      ps := (if items[0].id in known then [] else [0]) + shifted;
      forall p: nat ensures p in ps <==> p < |items| && items[p].id !in known {
        if p > 0 {
          assert p in shifted <==> (p - 1) in rest;
        }
      }
    }
  }

  lemma ShiftedPositions(ps: seq<nat>, shifted: seq<nat>)
    requires |shifted| == |ps| && forall i :: 0 <= i < |ps| ==> shifted[i] == ps[i] + 1
    ensures forall p: nat :: p in shifted <==> p > 0 && (p - 1) in ps
  {
    forall p: nat ensures p in shifted <==> p > 0 && (p - 1) in ps {
      if p in shifted {
        var i :| 0 <= i < |shifted| && shifted[i] == p;
        assert ps[i] == p - 1;
      }
      if p > 0 && (p - 1) in ps {
        var i :| 0 <= i < |ps| && ps[i] == p - 1;
        assert shifted[i] == p;
      }
    }
  }

  lemma NewInLonger(responses: seq<Response>, response: Response, m: Place)
    requires m.k < |responses|
    ensures New(responses + [response], m) <==> New(responses, m)
  {
    var all := responses + [response];
    assert all[m.k] == responses[m.k];
    if Valid(responses, m) {
      var id := ItemAt(responses, m).id;
      if SeenBefore(responses, m.k, id) {
        var n: Place :| n.k < m.k && Valid(responses, n) && ItemAt(responses, n).id == id;
        assert Valid(all, n) && ItemAt(all, n).id == id;
      }
      if SeenBefore(all, m.k, id) {
        var n: Place :| n.k < m.k && Valid(all, n) && ItemAt(all, n).id == id;
        assert Valid(responses, n) && ItemAt(responses, n).id == id;
      }
    }
  }

  lemma NewInLast(responses: seq<Response>, response: Response, known: set<Id>, m: Place)
    requires responses != [] && m.k == |responses|
    requires forall id :: id in known <==> Appears(responses, id)
    ensures New(responses + [response], m) <==> m.p < |Listed(response)| && Listed(response)[m.p].id !in known
  {
    var all := responses + [response];
    if m.p < |Listed(response)| {
      var id := Listed(response)[m.p].id;
      SeenMeansAppears(responses, id);
      if SeenBefore(responses, |responses|, id) {
        var n: Place :| n.k < |responses| && Valid(responses, n) && ItemAt(responses, n).id == id;
        assert Valid(all, n) && ItemAt(all, n).id == id;
      }
      if SeenBefore(all, |responses|, id) {
        var n: Place :| n.k < |responses| && Valid(all, n) && ItemAt(all, n).id == id;
        assert Valid(responses, n) && ItemAt(responses, n).id == id;
      }
    }
  }

  lemma FirstResponseAnnouncesNothing(response: Response)
    ensures Announces([response], [], [])
  {}

  lemma AnnouncesLater(
    responses: seq<Response>, response: Response, known: set<Id>, places: seq<Place>, toasts: seq<Item>)
    returns (longer: seq<Place>)
    requires responses != [] && Announces(responses, places, toasts)
    requires forall id :: id in known <==> Appears(responses, id)
    ensures Announces(responses + [response], longer, toasts + Fresh(Listed(response), known))
  {
    var all, items, k := responses + [response], Listed(response), |responses|;
    var ps := FreshPositions(items, known);
    var added := seq(|ps|, i requires 0 <= i < |ps| => Place(k, ps[i]));
    longer := places + added;
    AddedPlaces(k, ps, added);
    forall m: Place ensures m in longer <==> New(all, m) {
      if m.k < k {
        NewInLonger(responses, response, m);
      } else if m.k == k {
        NewInLast(responses, response, known, m);
        assert m !in places;
      } else {
        assert m !in places && !Valid(all, m);
      }
    }
    AddedInOrder(all, k, places, added, toasts, Fresh(items, known));
  }

  lemma AddedPlaces(k: nat, ps: seq<nat>, added: seq<Place>)
    requires |added| == |ps| && forall i :: 0 <= i < |ps| ==> added[i] == Place(k, ps[i])
    ensures forall m: Place :: m in added <==> m.k == k && m.p in ps
  {
    forall m: Place ensures m in added <==> m.k == k && m.p in ps {
      if m in added {
        var i :| 0 <= i < |added| && added[i] == m;
        assert ps[i] == m.p;
      }
      if m.k == k && m.p in ps {
        var i :| 0 <= i < |ps| && ps[i] == m.p;
        assert added[i] == m;
      }
    }
  }

  lemma AddedInOrder(
    all: seq<Response>, k: nat, places: seq<Place>, added: seq<Place>, toasts: seq<Item>, more: seq<Item>)
    requires |toasts| == |places| && |more| == |added| && k < |all|
    requires forall i :: 0 <= i < |places| ==>
      places[i].k < k && Valid(all, places[i]) && toasts[i] == ItemAt(all, places[i])
    requires forall i :: 0 <= i < |added| ==>
      added[i].k == k && Valid(all, added[i]) && more[i] == ItemAt(all, added[i])
    requires forall i, j :: 0 <= i < j < |places| ==> Before(places[i], places[j])
    requires forall i, j :: 0 <= i < j < |added| ==> Before(added[i], added[j])
    ensures var longer, shown := places + added, toasts + more;
      && |shown| == |longer|
      && (forall i :: 0 <= i < |longer| ==> Valid(all, longer[i]) && shown[i] == ItemAt(all, longer[i]))
      && (forall i, j :: 0 <= i < j < |longer| ==> Before(longer[i], longer[j]))
  {}

  // ---------- Over all runs ----------

  lemma StepAnnounces(b: Bell, e: Event, responses: seq<Response>, places: seq<Place>) returns (longer: seq<Place>)
    requires Enabled(b, e) && Announces(responses, places, b.toasts)
    requires b.knownIds.None? <==> responses == []
    requires b.knownIds.Some? ==> forall id :: id in b.knownIds.value <==> Appears(responses, id)
    ensures Announces(if e.Answer? then responses + [e.response] else responses, longer, Next(b, e).toasts)
  {
    longer := places;
    if e.Answer? {
      if responses == [] {
        longer := [];
        NothingBefore(places, b.toasts);
        FirstResponseAnnouncesNothing(e.response);
        assert responses + [e.response] == [e.response];
      } else {
        longer := AnnouncesLater(responses, e.response, b.knownIds.value, places, b.toasts);
        assert Unread(e.response) == Listed(e.response);
      }
    }
  }

  lemma NothingBefore(places: seq<Place>, toasts: seq<Item>)
    requires Announces([], places, toasts)
    ensures toasts == []
  {
    assert |places| > 0 ==> !Valid([], places[0]);
  }

  /** At any time of a run the pop-ups shown are exactly the new items, each with its own title and
      body, in order of arrival and, within one response, in the order of the response. */
  lemma {:induction false} PopUpsInOrder(bells: seq<Bell>, events: seq<Event>, n: nat) returns (places: seq<Place>)
    requires ValidRun(bells, events) && n <= |events|
    ensures Announces(Processed(events, n), places, bells[n].toasts)
  {
    if n == 0 {
      places := [];
    } else {
      var i := n - 1;
      var before := PopUpsInOrder(bells, events, i);
      KnownIdsAreTheUnion(bells, events, i);
      places := StepAnnounces(bells[i], events[i], Processed(events, i), before);
      assert bells[i + 1] == Next(bells[i], events[i]);
    }
  }

  /** Known are the ids brought by some response; the badge is the last response's total, or 0. */
  lemma KnownIdsAndBadge(bells: seq<Bell>, events: seq<Event>, n: nat)
    requires ValidRun(bells, events) && n <= |events|
    ensures var b, responses := bells[n], Processed(events, n);
      && (b.knownIds.None? <==> responses == [])
      && (b.knownIds.Some? ==> forall id :: id in b.knownIds.value <==> SeenBefore(responses, |responses|, id))
      && (responses == [] || responses[|responses| - 1].total.None? ==> b.unreadCount == 0)
      && (responses != [] && responses[|responses| - 1].total.Some? ==>
            b.unreadCount == responses[|responses| - 1].total.value)
  {
    var b, responses := bells[n], Processed(events, n);
    KnownIdsAreTheUnion(bells, events, n);
    BadgeIsLastArrived(bells, events, n);
    if b.knownIds.Some? {
      forall id ensures id in b.knownIds.value <==> SeenBefore(responses, |responses|, id) {
        SeenMeansAppears(responses, id);
      }
    }
  }
}
