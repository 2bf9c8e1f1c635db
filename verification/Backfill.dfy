/** Rebuilding student enrolments from accepted applications: one row per (student, school),
    from the last application in the query's order. */
module Backfill {
  import opened Wrappers
  import Text

  datatype Offer = Offer(schoolId: string, programId: Option<string>)
  datatype Application = Application(studentId: string, offer: Offer, decisionDate: Option<int>, submittedAt: int)
  datatype Program = Program(id: string, schoolId: string, name: string)
  datatype Year = Year(id: string, schoolId: string, yearLabel: string, isCurrent: bool)
  datatype Enrollment = Enrollment(
    programId: string, programLevel: nat, academicYearId: string, enrolledYear: string, status: string)

  type Pair = (string, string)

  function PairOf(a: Application): Pair { (a.studentId, a.offer.schoolId) }

  /** The script's map key, `${studentId}::${schoolId}`. */
  datatype Key = Key(text: string)

  function KeyOf(pair: Pair): Key { Key(pair.0 + "::" + pair.1) }

  // ---------- The key ----------

  /** Student ids without a colon (UUIDs) keep the pairs apart. */
  lemma KeyInjective(a: Pair, b: Pair)
    requires ':' !in a.0 && ':' !in b.0 && KeyOf(a) == KeyOf(b)
    ensures a == b
  {
    var k := KeyOf(a).text;
    assert k[|a.0|] == ':' && k[|b.0|] == ':';
    assert forall i | 0 <= i < |a.0| :: k[i] == a.0[i] != ':';
    assert forall i | 0 <= i < |b.0| :: k[i] == b.0[i] != ':';
    assert k[..|a.0|] == a.0 && k[..|b.0|] == b.0;
    assert k[|a.0| + 2..] == a.1 && k[|b.0| + 2..] == b.1;
  }

  /** With a colon allowed, two pairs can share a key. */
  lemma KeysCanCollide()
    ensures KeyOf(("a:", "b")) == KeyOf(("a", ":b")) && ("a:", "b") != ("a", ":b")
  {}

  predicate ColonFree(apps: seq<Application>) {
    forall i | 0 <= i < |apps| :: ':' !in apps[i].studentId
  }

  // ---------- Last one wins ----------

  /** The map after the first `n` applications, each overwriting the entry of its key. */
  function Latest(apps: seq<Application>, n: nat): map<Key, Application>
    requires n <= |apps|
  {
    if n == 0 then map[] else Latest(apps, n - 1)[KeyOf(PairOf(apps[n - 1])) := apps[n - 1]]
  }

  function KeyAt(apps: seq<Application>, i: nat): Key
    requires i < |apps|
  {
    KeyOf(PairOf(apps[i]))
  }

  /** `j` is the last of the first `n` applications with this key. */
  predicate IsLast(apps: seq<Application>, n: nat, key: Key, j: nat)
    requires n <= |apps|
  {
    j < n && KeyAt(apps, j) == key && forall i | j < i < n :: KeyAt(apps, i) != key
  }

  lemma {:induction false} EveryKeyHasEntry(apps: seq<Application>, n: nat, i: nat)
    requires i < n <= |apps|
    ensures KeyAt(apps, i) in Latest(apps, n)
  {
    if i < n - 1 {
      EveryKeyHasEntry(apps, n - 1, i);
    }
  }

  /** Every entry is the last application of its key. */
  lemma {:induction false} LatestIsLast(apps: seq<Application>, n: nat, key: Key) returns (j: nat)
    requires n <= |apps| && key in Latest(apps, n)
    ensures IsLast(apps, n, key, j) && Latest(apps, n)[key] == apps[j]
  {
    if KeyAt(apps, n - 1) == key {
      j := n - 1;
    } else {
      j := LatestIsLast(apps, n - 1, key);
    }
  }

  // ---------- The query's order and the most recent application ----------

  predicate DateLeq(a: Option<int>, b: Option<int>) {
    b.None? || (a.Some? && a.value <= b.value)
  }

  /** `orderBy: [{ decisionDate: 'asc' }, { submittedAt: 'asc' }]`; PostgreSQL puts nulls last. */
  predicate QueryLeq(a: Application, b: Application) {
    if a.decisionDate == b.decisionDate then a.submittedAt <= b.submittedAt
    else DateLeq(a.decisionDate, b.decisionDate)
  }

  predicate InQueryOrder(apps: seq<Application>) {
    forall i, j | 0 <= i < j < |apps| :: QueryLeq(apps[i], apps[j])
  }

  /** For each pair seen, the kept application belongs to it and no other of the pair comes
      after it in the query's order. */
  lemma KeptIsLastInOrder(apps: seq<Application>, i: nat) returns (j: nat)
    requires i < |apps| && ColonFree(apps) && InQueryOrder(apps)
    ensures i <= j < |apps| && PairOf(apps[j]) == PairOf(apps[i])
    ensures i == j || QueryLeq(apps[i], apps[j])
    ensures KeyAt(apps, i) in Latest(apps, |apps|) && Latest(apps, |apps|)[KeyAt(apps, i)] == apps[j]
  {
    EveryKeyHasEntry(apps, |apps|, i);
    j := LatestIsLast(apps, |apps|, KeyAt(apps, i));
    KeyInjective(PairOf(apps[j]), PairOf(apps[i]));
  }

  /** As the script's own description has it: later decision first, then later submission; an
      application without a decision date is never later than a dated one. */
  predicate RecentLeq(a: Application, b: Application) {
    if a.decisionDate == b.decisionDate then a.submittedAt <= b.submittedAt
    else a.decisionDate.None? || (b.decisionDate.Some? && a.decisionDate.value <= b.decisionDate.value)
  }

  predicate KeepsMostRecent(apps: seq<Application>) {
    forall i | 0 <= i < |apps| ::
      KeyAt(apps, i) in Latest(apps, |apps|) && RecentLeq(apps[i], Latest(apps, |apps|)[KeyAt(apps, i)])
  }

  /** Some pair has both a dated and an undated application. */
  predicate MixesUndated(apps: seq<Application>) {
    exists i, j :: 0 <= i < |apps| && 0 <= j < |apps|
      && PairOf(apps[i]) == PairOf(apps[j]) && apps[i].decisionDate.Some? && apps[j].decisionDate.None?
  }

  /** The most recent application is kept for every pair exactly when no pair mixes dated and
      undated applications: nulls sort last, so an undated one always wins over a dated one. */
  lemma KeepsMostRecentIff(apps: seq<Application>)
    requires ColonFree(apps) && InQueryOrder(apps)
    ensures KeepsMostRecent(apps) <==> !MixesUndated(apps)
  {
    if MixesUndated(apps) {
      var i, j :| 0 <= i < |apps| && 0 <= j < |apps|
        && PairOf(apps[i]) == PairOf(apps[j]) && apps[i].decisionDate.Some? && apps[j].decisionDate.None?;
      var kept := KeptIsLastInOrder(apps, j);
      assert KeyAt(apps, i) == KeyAt(apps, j);
      assert !RecentLeq(apps[i], apps[kept]);
    } else {
      forall i | 0 <= i < |apps|
        ensures KeyAt(apps, i) in Latest(apps, |apps|) && RecentLeq(apps[i], Latest(apps, |apps|)[KeyAt(apps, i)])
      {
        var kept := KeptIsLastInOrder(apps, i);
      }
    }
  }

  /** A concrete query result on which the undated, older application is kept. */
  lemma UndatedOlderApplicationWins()
    ensures var offer := Offer("school", Some("program"));
      var apps := [Application("student", offer, Some(20), 10), Application("student", offer, None, 1)];
      InQueryOrder(apps) && !KeepsMostRecent(apps)
  {
    var offer := Offer("school", Some("program"));
    var apps := [Application("student", offer, Some(20), 10), Application("student", offer, None, 1)];
    assert PairOf(apps[0]) == PairOf(apps[1]);
    KeepsMostRecentIff(apps);
  }

  // ---------- Writing the enrolments ----------

  function FindProgram(programs: seq<Program>, n: nat, id: string, schoolId: string): Option<Program>
    requires n <= |programs|
    decreases |programs| - n
  {
    if n == |programs| then None
    else if programs[n].id == id && programs[n].schoolId == schoolId then Some(programs[n])
    else FindProgram(programs, n + 1, id, schoolId)
  }

  /** The answers of `findFirst({ where: { schoolId, isCurrent: true } })`, one for each pair the
      script asks about. Nothing says which of several current years is returned, or that two
      calls return the same. */
  type YearPick = Pair -> Option<Year>

  predicate IsCurrentFor(y: Year, pair: Pair) { y.schoolId == pair.1 && y.isCurrent }

  /** A year that query may return for a pair: any current one of the school, or none if it has none. */
  predicate ValidYear(year: Option<Year>, pair: Pair, years: seq<Year>) {
    match year
    case Some(y) => y in years && IsCurrentFor(y, pair)
    case None => forall y | y in years :: !IsCurrentFor(y, pair)
  }

  ghost predicate ValidPick(pick: YearPick, years: seq<Year>) {
    forall pair :: ValidYear(pick(pair), pair, years)
  }

  function EnrollmentLabel(programName: string, level: nat, academicYearLabel: string): string {
    "Année " + Text.Decimal(level) + " · " + programName + " · " + academicYearLabel
  }

  /** The row written for an application, given the year found, if its offer leads to a programme. */
  function RowFor(a: Application, programs: seq<Program>, year: Option<Year>): Option<Enrollment> {
    if a.offer.programId.None? || a.offer.programId.value == "" then None
    else
      var program := FindProgram(programs, 0, a.offer.programId.value, a.offer.schoolId);
      if program.None? || year.None? then None
      else Some(Enrollment(program.value.id, 1, year.value.id,
                           EnrollmentLabel(program.value.name, 1, year.value.yearLabel), "ACTIVE"))
  }

  function Outcome(a: Application, programs: seq<Program>, pick: YearPick): Option<Enrollment> {
    RowFor(a, programs, pick(PairOf(a)))
  }

  type Rows = map<Pair, Enrollment>

  datatype Progress = Progress(rows: Rows, created: nat, skipped: nat)

  function Step(p: Progress, a: Application, programs: seq<Program>, pick: YearPick): Progress {
    match Outcome(a, programs, pick)
    case None => p.(skipped := p.skipped + 1)
    case Some(e) => p.(rows := p.rows[PairOf(a) := e], created := p.created + 1)
  }

  /** The upsert loop over the first `n` keys of an enumeration of the map. */
  function Fold(
    p: Progress, latest: map<Key, Application>, order: seq<Key>, n: nat, programs: seq<Program>, pick: YearPick)
    : Progress
    requires n <= |order| && forall i | 0 <= i < |order| :: order[i] in latest
  {
    if n == 0 then p
    else Step(Fold(p, latest, order, n - 1, programs, pick), latest[order[n - 1]], programs, pick)
  }

  /** An enumeration of the map: each key once. */
  predicate Enumerates(order: seq<Key>, latest: map<Key, Application>) {
    && (forall i | 0 <= i < |order| :: order[i] in latest)
    && (forall key | key in latest :: key in order)
    && Distinct(order)
  }

  /** Each entry of the map is filed under its own key. */
  predicate WellKeyed(latest: map<Key, Application>) {
    forall key | key in latest :: KeyOf(PairOf(latest[key])) == key
  }

  lemma {:induction false} LatestIsWellKeyed(apps: seq<Application>, n: nat)
    requires n <= |apps|
    ensures WellKeyed(Latest(apps, n))
  {
    if n > 0 {
      LatestIsWellKeyed(apps, n - 1);
    }
  }

  /** What the map says of a pair: the enrolment to write, or nothing. */
  function Selected(
    latest: map<Key, Application>, programs: seq<Program>, pick: YearPick, pair: Pair): Option<Enrollment>
  {
    if KeyOf(pair) in latest && PairOf(latest[KeyOf(pair)]) == pair then Outcome(latest[KeyOf(pair)], programs, pick)
    else None
  }

  /** The row of a pair after the run: the one selected for it, or what it was. */
  predicate Becomes(before: Rows, after: Rows, pair: Pair, outcome: Option<Enrollment>) {
    match outcome
    case Some(e) => pair in after && after[pair] == e
    case None => (pair in after <==> pair in before) && (pair in before ==> after[pair] == before[pair])
  }

  /** The final table, pair by pair and in no particular order. */
  ghost predicate Backfilled(
    before: Rows, after: Rows, latest: map<Key, Application>, programs: seq<Program>, pick: YearPick)
  {
    forall pair :: Becomes(before, after, pair, Selected(latest, programs, pick, pair))
  }

  /** The same, for the keys already processed. */
  ghost predicate PartlyBackfilled(
    before: Rows, after: Rows, latest: map<Key, Application>, programs: seq<Program>, pick: YearPick,
    order: seq<Key>, n: nat)
    requires n <= |order|
  {
    forall pair ::
      Becomes(before, after, pair, if KeyOf(pair) in order[..n] then Selected(latest, programs, pick, pair) else None)
  }

  function Resolvable(latest: map<Key, Application>, programs: seq<Program>, pick: YearPick): set<Key> {
    set key | key in latest && Outcome(latest[key], programs, pick).Some?
  }

  lemma {:induction false} FoldBackfills(
    before: Rows, latest: map<Key, Application>, order: seq<Key>, n: nat, programs: seq<Program>, pick: YearPick)
    requires n <= |order| && Enumerates(order, latest) && WellKeyed(latest)
    ensures var after := Fold(Progress(before, 0, 0), latest, order, n, programs, pick).rows;
      PartlyBackfilled(before, after, latest, programs, pick, order, n)
  {
    if n > 0 {
      FoldBackfills(before, latest, order, n - 1, programs, pick);
      var p := Fold(Progress(before, 0, 0), latest, order, n - 1, programs, pick);
      StepBackfills(before, p, latest, order, n, programs, pick);
    }
  }

  lemma StepBackfills(
    before: Rows, p: Progress, latest: map<Key, Application>, order: seq<Key>, n: nat, programs: seq<Program>,
    pick: YearPick)
    requires 0 < n <= |order| && Enumerates(order, latest) && WellKeyed(latest)
    requires PartlyBackfilled(before, p.rows, latest, programs, pick, order, n - 1)
    ensures var after := Step(p, latest[order[n - 1]], programs, pick).rows;
      PartlyBackfilled(before, after, latest, programs, pick, order, n)
  {
    var key := order[n - 1];
    var a := latest[key];
    assert order[..n] == order[..n - 1] + [key];
    forall pair: Pair ensures KeyOf(pair) in order[..n] <==> KeyOf(pair) in order[..n - 1] || KeyOf(pair) == key {}
    assert KeyOf(PairOf(a)) == key;
    forall pair: Pair | KeyOf(pair) == key && pair != PairOf(a)
      ensures Selected(latest, programs, pick, pair) == None
    {}
  }

  function Elements<K>(order: seq<K>, n: nat): set<K>
    requires n <= |order|
  {
    set i | 0 <= i < n :: order[i]
  }

  predicate Distinct<K(==)>(order: seq<K>) {
    forall i, j | 0 <= i < j < |order| :: order[i] != order[j]
  }

  lemma {:induction false} ElementsSize<K>(order: seq<K>, n: nat)
    requires n <= |order| && Distinct(order)
    ensures |Elements(order, n)| == n
  {
    if n > 0 {
      ElementsSize(order, n - 1);
      assert Elements(order, n) == Elements(order, n - 1) + {order[n - 1]};
    }
  }

  lemma OneMoreElement<K>(order: seq<K>, n: nat, good: set<K>)
    requires 0 < n <= |order| && Distinct(order)
    ensures |Elements(order, n) * good| == |Elements(order, n - 1) * good| + if order[n - 1] in good then 1 else 0
  {
    var key, before := order[n - 1], Elements(order, n - 1) * good;
    assert Elements(order, n) == Elements(order, n - 1) + {key};
    if key in good {
      assert Elements(order, n) * good == before + {key};
    } else {
      assert Elements(order, n) * good == before;
    }
  }

  lemma EnumerationCounts<K>(order: seq<K>, all: set<K>, good: set<K>)
    requires Distinct(order) && good <= all
    requires forall i | 0 <= i < |order| :: order[i] in all
    requires forall key | key in all :: key in order
    ensures |order| == |all| && |Elements(order, |order|) * good| == |good|
  {
    assert Elements(order, |order|) == all;
    ElementsSize(order, |order|);
    assert Elements(order, |order|) * good == good;
  }

  /** Two lists that repeat at the same places have equally many distinct elements. */
  lemma {:induction false} SameRepeats<K, P>(keys: seq<K>, pairs: seq<P>, n: nat)
    requires n <= |keys| == |pairs|
    requires forall i, j | 0 <= i < j < |keys| :: keys[i] == keys[j] <==> pairs[i] == pairs[j]
    ensures |Elements(keys, n)| == |Elements(pairs, n)|
  {
    if n > 0 {
      SameRepeats(keys, pairs, n - 1);
      OneMoreDistinct(keys, n);
      OneMoreDistinct(pairs, n);
      assert keys[n - 1] in Elements(keys, n - 1) <==> exists i :: 0 <= i < n - 1 && keys[i] == keys[n - 1];
      assert pairs[n - 1] in Elements(pairs, n - 1) <==> exists i :: 0 <= i < n - 1 && pairs[i] == pairs[n - 1];
    }
  }

  lemma OneMoreDistinct<K>(order: seq<K>, n: nat)
    requires 0 < n <= |order|
    ensures |Elements(order, n)| == |Elements(order, n - 1)| + if order[n - 1] in Elements(order, n - 1) then 0 else 1
  {
    assert Elements(order, n) == Elements(order, n - 1) + {order[n - 1]};
    if order[n - 1] in Elements(order, n - 1) {
      assert Elements(order, n) == Elements(order, n - 1);
    }
  }

  lemma StepCounts(p: Progress, a: Application, programs: seq<Program>, pick: YearPick)
    ensures var q := Step(p, a, programs, pick);
      && q.created == p.created + (if Outcome(a, programs, pick).Some? then 1 else 0)
      && q.created + q.skipped == p.created + p.skipped + 1
  {}

  lemma {:induction false} FoldCounts(
    p: Progress, latest: map<Key, Application>, order: seq<Key>, n: nat, programs: seq<Program>, pick: YearPick,
    good: set<Key>)
    requires n <= |order| && Enumerates(order, latest)
    requires forall key | key in latest :: key in good <==> Outcome(latest[key], programs, pick).Some?
    ensures var q := Fold(p, latest, order, n, programs, pick);
      && q.created == p.created + |Elements(order, n) * good|
      && q.created + q.skipped == p.created + p.skipped + n
  {
    if n == 0 {
      assert Elements(order, 0) * good == {};
    } else {
      FoldCounts(p, latest, order, n - 1, programs, pick, good);
      OneMoreElement(order, n, good);
      StepCounts(Fold(p, latest, order, n - 1, programs, pick), latest[order[n - 1]], programs, pick);
    }
  }

  /** In whatever order the map is enumerated, the loop leaves the same table and counters. */
  lemma AnyOrderBackfills(
    before: Rows, latest: map<Key, Application>, order: seq<Key>, programs: seq<Program>, pick: YearPick)
    requires Enumerates(order, latest) && WellKeyed(latest)
    ensures var end := Fold(Progress(before, 0, 0), latest, order, |order|, programs, pick);
      && Backfilled(before, end.rows, latest, programs, pick)
      && end.created == |Resolvable(latest, programs, pick)|
      && end.created + end.skipped == |latest|
  {
    FoldBackfills(before, latest, order, |order|, programs, pick);
    FoldCounts(Progress(before, 0, 0), latest, order, |order|, programs, pick, Resolvable(latest, programs, pick));
    EnumerationCounts(order, latest.Keys, Resolvable(latest, programs, pick));
    assert order[..|order|] == order;
  }

  /** The description of the final table leaves no choice. */
  lemma BackfilledIsUnique(
    before: Rows, a: Rows, b: Rows, latest: map<Key, Application>, programs: seq<Program>, pick: YearPick)
    requires Backfilled(before, a, latest, programs, pick) && Backfilled(before, b, latest, programs, pick)
    ensures a == b
  {
    forall pair ensures (pair in a <==> pair in b) && (pair in a ==> a[pair] == b[pair]) {
      assert Selected(latest, programs, pick, pair).Some? || Selected(latest, programs, pick, pair).None?;
    }
  }

  /** Application `j` is the last one of its pair in the query's order. */
  predicate IsLastOf(apps: seq<Application>, j: nat, pair: Pair) {
    && j < |apps| && PairOf(apps[j]) == pair
    && forall m | j < m < |apps| :: PairOf(apps[m]) != pair
  }

  /** The whole script, pair by pair: the last application of a pair decides its row, and a pair
      without application keeps its own. */
  lemma LastApplicationDecides(
    before: Rows, after: Rows, apps: seq<Application>, programs: seq<Program>, pick: YearPick, pair: Pair)
    requires ColonFree(apps) && Backfilled(before, after, Latest(apps, |apps|), programs, pick)
    ensures forall j: nat | IsLastOf(apps, j, pair) :: Becomes(before, after, pair, Outcome(apps[j], programs, pick))
    ensures (forall i | 0 <= i < |apps| :: PairOf(apps[i]) != pair) ==> Becomes(before, after, pair, None)
  {
    var latest := Latest(apps, |apps|);
    forall j: nat | IsLastOf(apps, j, pair)
      ensures Becomes(before, after, pair, Outcome(apps[j], programs, pick))
    {
      EveryKeyHasEntry(apps, |apps|, j);
      var k := LatestIsLast(apps, |apps|, KeyAt(apps, j));
      KeyInjective(PairOf(apps[k]), PairOf(apps[j]));
      assert k == j;
      assert Selected(latest, programs, pick, pair) == Outcome(apps[j], programs, pick);
    }
    if forall i | 0 <= i < |apps| :: PairOf(apps[i]) != pair {
      if KeyOf(pair) in latest {
        var k := LatestIsLast(apps, |apps|, KeyOf(pair));
      }
      assert Selected(latest, programs, pick, pair) == None;
    }
  }

  // ---------- What is written ----------

  lemma {:induction false} FoundProgram(programs: seq<Program>, n: nat, id: string, schoolId: string)
    requires n <= |programs|
    ensures FindProgram(programs, n, id, schoolId).Some? <==>
      exists i :: n <= i < |programs| && programs[i].id == id && programs[i].schoolId == schoolId
    ensures FindProgram(programs, n, id, schoolId).Some? ==>
      var p := FindProgram(programs, n, id, schoolId).value;
      p in programs && p.id == id && p.schoolId == schoolId
    decreases |programs| - n
  {
    if n < |programs| {
      FoundProgram(programs, n + 1, id, schoolId);
    }
  }

  /** Every row the run changes gets a programme and a current year of its own school, and the
      programme its kept application's offer names. */
  lemma WrittenRowsBelongToSchool(
    before: Rows, after: Rows, latest: map<Key, Application>, programs: seq<Program>, pick: YearPick,
    years: seq<Year>, pair: Pair)
    requires Backfilled(before, after, latest, programs, pick) && ValidPick(pick, years)
    requires pair in after && !(pair in before && before[pair] == after[pair])
    ensures exists p | p in programs :: p.id == after[pair].programId && p.schoolId == pair.1
    ensures exists y | y in years :: y.id == after[pair].academicYearId && y.schoolId == pair.1 && y.isCurrent
    ensures KeyOf(pair) in latest && latest[KeyOf(pair)].offer.programId == Some(after[pair].programId)
  {
    var a := latest[KeyOf(pair)];
    assert Selected(latest, programs, pick, pair).Some?;
    FoundProgram(programs, 0, a.offer.programId.value, a.offer.schoolId);
    var p := FindProgram(programs, 0, a.offer.programId.value, a.offer.schoolId).value;
    var y := pick(pair).value;
    assert p in programs && y in years;
  }

  // ---------- The number of pairs ----------

  function KeysOf(apps: seq<Application>): seq<Key> { seq(|apps|, i requires 0 <= i < |apps| => KeyAt(apps, i)) }

  function PairsOf(apps: seq<Application>): seq<Pair> { seq(|apps|, i requires 0 <= i < |apps| => PairOf(apps[i])) }

  lemma LatestKeys(apps: seq<Application>)
    ensures Latest(apps, |apps|).Keys == Elements(KeysOf(apps), |apps|)
  {
    forall i | 0 <= i < |apps| ensures KeyAt(apps, i) in Latest(apps, |apps|) {
      EveryKeyHasEntry(apps, |apps|, i);
    }
    forall key | key in Latest(apps, |apps|) ensures key in Elements(KeysOf(apps), |apps|) {
      var j := LatestIsLast(apps, |apps|, key);
      assert KeysOf(apps)[j] == key;
    }
  }

  /** The map has one entry per distinct (student, school) pair. */
  lemma {:induction false} OneEntryPerPair(apps: seq<Application>)
    requires ColonFree(apps)
    ensures |Latest(apps, |apps|)| == |Elements(PairsOf(apps), |apps|)|
  {
    LatestKeys(apps);
    var keys, pairs := KeysOf(apps), PairsOf(apps);
    forall i, j | 0 <= i < j < |apps| && keys[i] == keys[j] ensures pairs[i] == pairs[j] {
      KeyInjective(pairs[i], pairs[j]);
    }
    SameRepeats(keys, pairs, |apps|);
  }

  // ---------- The script ----------

  class EnrollmentTable {
    var rows: map<Pair, Enrollment>

    /** The script: a map overwritten application by application (kept with the order in which
        its keys first appeared), then one upsert per entry. */
    method Backfill(
      applications: seq<Application>, programs: seq<Program>, pick: YearPick) returns (created: nat, skipped: nat)
      modifies this
      ensures var latest := Latest(applications, |applications|);
        && Backfilled(old(rows), rows, latest, programs, pick)
        && created == |Resolvable(latest, programs, pick)|
        && created + skipped == |latest|
    {
      var latestByStudentSchool: map<Key, Application> := map[];
      var order: seq<Key> := [];
      for i := 0 to |applications|
        invariant latestByStudentSchool == Latest(applications, i)
        invariant Enumerates(order, latestByStudentSchool)
      {
        var key := Key(applications[i].studentId + "::" + applications[i].offer.schoolId);
        if key !in latestByStudentSchool {
          order := order + [key];
        }
        latestByStudentSchool := latestByStudentSchool[key := applications[i]];
      }
      LatestIsWellKeyed(applications, |applications|);
      created, skipped := 0, 0;
      ghost var start := Progress(rows, 0, 0);
      for n := 0 to |order|
        invariant Progress(rows, created, skipped) == Fold(start, latestByStudentSchool, order, n, programs, pick)
      {
        var application := latestByStudentSchool[order[n]];
        var outcome := Outcome(application, programs, pick);
        if outcome.None? {
          skipped := skipped + 1;
        } else {
          rows := rows[PairOf(application) := outcome.value];
          created := created + 1;
        }
      }
      AnyOrderBackfills(start.rows, latestByStudentSchool, order, programs, pick);
    }
  }
}
