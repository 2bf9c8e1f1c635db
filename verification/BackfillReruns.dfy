/** Running the enrolment backfill again. Its queries leave choices open: applications that tie in
    `(decisionDate, submittedAt)` come in any order, and any current year of a school may be
    found. A run may choose differently from the one before it. */
module BackfillReruns {
  import opened Backfill
  import opened Wrappers

  /** A list the applications query may return when it may return `apps`. */
  predicate Returns(apps: seq<Application>, list: seq<Application>) {
    multiset(list) == multiset(apps) && InQueryOrder(list)
  }

  /** One run: some list, some years, and the table it leaves. */
  ghost predicate Run(
    apps: seq<Application>, programs: seq<Program>, years: seq<Year>, list: seq<Application>, pick: YearPick,
    before: Rows, after: Rows)
  {
    && Returns(apps, list) && ValidPick(pick, years)
    && Backfilled(before, after, Latest(list, |list|), programs, pick)
  }

  /** Whatever the table was, and whatever the queries of both runs return, a second run leaves
      the table as the first one left it. */
  ghost predicate Repeatable(apps: seq<Application>, programs: seq<Program>, years: seq<Year>) {
    forall first, second, pick, again, before, once, twice |
      Run(apps, programs, years, first, pick, before, once) && Run(apps, programs, years, second, again, once, twice) ::
      twice == once
  }

  /** Application `a` is last of its pair, up to ties. */
  predicate Leads(apps: seq<Application>, a: Application) {
    a in apps && forall b | b in apps && PairOf(b) == PairOf(a) :: QueryLeq(b, a)
  }

  /** Leading applications of one pair, with any current years of the school, give the same row. */
  predicate Agree(
    apps: seq<Application>, programs: seq<Program>, years: seq<Year>, a: Application, b: Application,
    y: Option<Year>, z: Option<Year>)
  {
    Leads(apps, a) && Leads(apps, b) && PairOf(a) == PairOf(b)
    && ValidYear(y, PairOf(a), years) && ValidYear(z, PairOf(a), years)
    ==> RowFor(a, programs, y) == RowFor(b, programs, z)
  }

  ghost predicate Decided(apps: seq<Application>, programs: seq<Program>, years: seq<Year>) {
    forall a, b, y, z :: Agree(apps, programs, years, a, b, y, z)
  }

  // ---------- Every run keeps a leading application ----------

  lemma SameApplications(apps: seq<Application>, list: seq<Application>)
    requires multiset(list) == multiset(apps)
    ensures forall a :: a in list <==> a in apps
  {
    forall a ensures a in list <==> a in apps {
      assert a in multiset(list) <==> a in multiset(apps);
    }
  }

  lemma ReturnsColonFree(apps: seq<Application>, list: seq<Application>)
    requires ColonFree(apps) && multiset(list) == multiset(apps)
    ensures ColonFree(list)
  {
    SameApplications(apps, list);
    forall i | 0 <= i < |list| ensures ':' !in list[i].studentId {
      assert list[i] in apps;
    }
  }

  lemma KeptLeads(list: seq<Application>, c: Application) returns (a: Application)
    requires ColonFree(list) && InQueryOrder(list) && c in list
    ensures Leads(list, a) && PairOf(a) == PairOf(c)
    ensures KeyOf(PairOf(c)) in Latest(list, |list|) && Latest(list, |list|)[KeyOf(PairOf(c))] == a
  {
    var i :| 0 <= i < |list| && list[i] == c;
    EveryKeyHasEntry(list, |list|, i);
    var j := LatestIsLast(list, |list|, KeyAt(list, i));
    KeyInjective(PairOf(list[j]), PairOf(c));
    a := list[j];
    forall b | b in list && PairOf(b) == PairOf(a) ensures QueryLeq(b, a) {
      var m :| 0 <= m < |list| && list[m] == b;
      assert KeyAt(list, m) == KeyAt(list, j);
    }
  }

  lemma SelectedLeads(
    apps: seq<Application>, list: seq<Application>, programs: seq<Program>, pick: YearPick, c: Application)
    returns (a: Application)
    requires ColonFree(apps) && Returns(apps, list) && c in apps
    ensures Leads(apps, a) && PairOf(a) == PairOf(c)
    ensures Selected(Latest(list, |list|), programs, pick, PairOf(c)) == RowFor(a, programs, pick(PairOf(c)))
  {
    SameApplications(apps, list);
    ReturnsColonFree(apps, list);
    a := KeptLeads(list, c);
  }

  lemma NothingSelected(
    apps: seq<Application>, list: seq<Application>, programs: seq<Program>, pick: YearPick, pair: Pair)
    requires Returns(apps, list) && forall c | c in apps :: PairOf(c) != pair
    ensures Selected(Latest(list, |list|), programs, pick, pair) == None
  {
    SameApplications(apps, list);
    if KeyOf(pair) in Latest(list, |list|) {
      var j := LatestIsLast(list, |list|, KeyOf(pair));
      assert list[j] in apps;
    }
  }

  /** When the choices do not matter, two runs select the same row for every pair. */
  lemma SameSelection(
    apps: seq<Application>, programs: seq<Program>, years: seq<Year>, first: seq<Application>,
    second: seq<Application>, pick: YearPick, again: YearPick, pair: Pair)
    requires ColonFree(apps) && Decided(apps, programs, years)
    requires Returns(apps, first) && Returns(apps, second) && ValidPick(pick, years) && ValidPick(again, years)
    ensures Selected(Latest(first, |first|), programs, pick, pair)
      == Selected(Latest(second, |second|), programs, again, pair)
  {
    if c :| c in apps && PairOf(c) == pair {
      var a := SelectedLeads(apps, first, programs, pick, c);
      var b := SelectedLeads(apps, second, programs, again, c);
      assert ValidYear(pick(pair), pair, years) && ValidYear(again(pair), pair, years);
      assert Agree(apps, programs, years, a, b, pick(pair), again(pair));
    } else {
      NothingSelected(apps, first, programs, pick, pair);
      NothingSelected(apps, second, programs, again, pair);
    }
  }

  lemma SameSelectionSameTable(
    before: Rows, once: Rows, twice: Rows, latest: map<Key, Application>, later: map<Key, Application>,
    programs: seq<Program>, pick: YearPick, again: YearPick)
    requires Backfilled(before, once, latest, programs, pick) && Backfilled(once, twice, later, programs, again)
    requires forall pair :: Selected(latest, programs, pick, pair) == Selected(later, programs, again, pair)
    ensures twice == once
  {
    forall pair ensures (pair in once <==> pair in twice) && (pair in once ==> once[pair] == twice[pair]) {
      assert Selected(latest, programs, pick, pair) == Selected(later, programs, again, pair);
      assert Becomes(before, once, pair, Selected(latest, programs, pick, pair));
      assert Becomes(once, twice, pair, Selected(later, programs, again, pair));
    }
  }

  // ---------- Every leading application can be kept ----------

  lemma QueryLeqIsTransitive(a: Application, b: Application, c: Application)
    requires QueryLeq(a, b) && QueryLeq(b, c)
    ensures QueryLeq(a, c)
  {}

  /** Exchanging two neighbours that tie gives another list the query may return. */
  lemma SwapTied(list: seq<Application>, i: nat) returns (swapped: seq<Application>)
    requires i + 1 < |list| && InQueryOrder(list) && QueryLeq(list[i + 1], list[i])
    ensures swapped == list[i := list[i + 1]][i + 1 := list[i]]
    ensures multiset(swapped) == multiset(list) && InQueryOrder(swapped)
  {
    swapped := list[i := list[i + 1]][i + 1 := list[i]];
    forall j, k | 0 <= j < k < |swapped| ensures QueryLeq(swapped[j], swapped[k]) {
      assert QueryLeq(list[i], list[i + 1]);
    }
  }

  /** A leading application can come after all the others of its pair. */
  lemma {:induction false} PutLast(list: seq<Application>, i: nat) returns (moved: seq<Application>, j: nat)
    requires i < |list| && InQueryOrder(list) && Leads(list, list[i])
    ensures multiset(moved) == multiset(list) && InQueryOrder(moved)
    ensures j < |moved| && moved[j] == list[i] && IsLastOf(moved, j, PairOf(list[i]))
    decreases |list| - i
  {
    if i + 1 < |list| && QueryLeq(list[i + 1], list[i]) {
      var swapped := SwapTied(list, i);
      SameApplications(list, swapped);
      moved, j := PutLast(swapped, i + 1);
    } else {
      moved, j := list, i;
      forall m | i < m < |list| ensures PairOf(list[m]) != PairOf(list[i]) {
        if PairOf(list[m]) == PairOf(list[i]) {
          assert QueryLeq(list[m], list[i]);
          if m > i + 1 {
            QueryLeqIsTransitive(list[i + 1], list[m], list[i]);
          }
        }
      }
    }
  }

  lemma LeaderCanBeKept(apps: seq<Application>, a: Application) returns (list: seq<Application>)
    requires ColonFree(apps) && InQueryOrder(apps) && Leads(apps, a)
    ensures Returns(apps, list)
    ensures KeyOf(PairOf(a)) in Latest(list, |list|) && Latest(list, |list|)[KeyOf(PairOf(a))] == a
  {
    var i :| 0 <= i < |apps| && apps[i] == a;
    var j: nat;
    list, j := PutLast(apps, i);
    ReturnsColonFree(apps, list);
    EveryKeyHasEntry(list, |list|, j);
    var k := LatestIsLast(list, |list|, KeyAt(list, j));
    KeyInjective(PairOf(list[k]), PairOf(a));
  }

  // ---------- Every year can be found, and every run has a result ----------

  /** Some current year for every pair, and a chosen one for one pair. */
  ghost function PickWith(years: seq<Year>, pair: Pair, year: Option<Year>): (pick: YearPick)
    requires ValidYear(year, pair, years)
    ensures ValidPick(pick, years) && pick(pair) == year
  {
    p => if p == pair then year else AnyYear(years, p)
  }

  ghost function AnyYear(years: seq<Year>, pair: Pair): (year: Option<Year>)
    ensures ValidYear(year, pair, years)
  {
    if y :| y in years && IsCurrentFor(y, pair) then Some(y) else None
  }

  lemma RunHasResult(before: Rows, latest: map<Key, Application>, programs: seq<Program>, pick: YearPick)
    returns (after: Rows)
    ensures Backfilled(before, after, latest, programs, pick)
  {
    var written := set key | key in latest && Selected(latest, programs, pick, PairOf(latest[key])).Some? ::
      PairOf(latest[key]);
    after := map pair | pair in written + before.Keys ::
      if pair in written then Selected(latest, programs, pick, pair).value else before[pair];
    forall pair ensures Becomes(before, after, pair, Selected(latest, programs, pick, pair)) {
      assert pair in written <==> Selected(latest, programs, pick, pair).Some?;
    }
  }

  /** Two leaders, or two years, that give different rows: one run keeps the one, the next run
      the other. */
  lemma OtherChoiceChangesTable(
    apps: seq<Application>, programs: seq<Program>, years: seq<Year>, a: Application, b: Application,
    y: Option<Year>, z: Option<Year>)
    requires ColonFree(apps) && InQueryOrder(apps)
    requires Leads(apps, a) && Leads(apps, b) && PairOf(a) == PairOf(b)
    requires ValidYear(y, PairOf(a), years) && ValidYear(z, PairOf(a), years)
    requires RowFor(b, programs, z).Some? && RowFor(a, programs, y) != RowFor(b, programs, z)
    ensures !Repeatable(apps, programs, years)
  {
    var pair := PairOf(a);
    var first := LeaderCanBeKept(apps, a);
    var second := LeaderCanBeKept(apps, b);
    var pick, again := PickWith(years, pair, y), PickWith(years, pair, z);
    var once := RunHasResult(map[], Latest(first, |first|), programs, pick);
    var twice := RunHasResult(once, Latest(second, |second|), programs, again);
    assert Run(apps, programs, years, first, pick, map[], once);
    assert Run(apps, programs, years, second, again, once, twice);
    assert Selected(Latest(first, |first|), programs, pick, pair) == RowFor(a, programs, y);
    assert Selected(Latest(second, |second|), programs, again, pair) == RowFor(b, programs, z);
    assert Becomes(map[], once, pair, RowFor(a, programs, y));
    assert Becomes(once, twice, pair, RowFor(b, programs, z));
    assert twice != once;
  }

  /** A second run never changes anything, whatever the queries of both runs return, exactly when
      for every pair the leading applications and the current years all give the same row. */
  lemma RepeatableIff(apps: seq<Application>, programs: seq<Program>, years: seq<Year>)
    requires ColonFree(apps) && InQueryOrder(apps)
    ensures Repeatable(apps, programs, years) <==> Decided(apps, programs, years)
  {
    if Decided(apps, programs, years) {
      forall first, second, pick, again, before, once, twice |
        Run(apps, programs, years, first, pick, before, once) && Run(apps, programs, years, second, again, once, twice)
        ensures twice == once
      {
        forall pair
          ensures Selected(Latest(first, |first|), programs, pick, pair)
            == Selected(Latest(second, |second|), programs, again, pair)
        {
          SameSelection(apps, programs, years, first, second, pick, again, pair);
        }
        SameSelectionSameTable(
          before, once, twice, Latest(first, |first|), Latest(second, |second|), programs, pick, again);
      }
    } else {
      var a, b, y, z :| !Agree(apps, programs, years, a, b, y, z);
      if RowFor(b, programs, z).Some? {
        OtherChoiceChangesTable(apps, programs, years, a, b, y, z);
      } else {
        OtherChoiceChangesTable(apps, programs, years, b, a, z, y);
      }
    }
  }

  // ---------- What a caller can look up ----------

  /** No two different applications of one pair tie. */
  ghost predicate NoTies(apps: seq<Application>) {
    forall a, b | a in apps && b in apps && PairOf(a) == PairOf(b) && QueryLeq(a, b) && QueryLeq(b, a) :: a == b
  }

  /** No school of an application has two current years. */
  ghost predicate OneCurrentYear(apps: seq<Application>, years: seq<Year>) {
    forall a, y, z |
      a in apps && y in years && z in years && IsCurrentFor(y, PairOf(a)) && IsCurrentFor(z, PairOf(a)) :: y == z
  }

  /** Without ties and with one current year per school, nothing is left to choose. */
  lemma RepeatableWithoutChoices(apps: seq<Application>, programs: seq<Program>, years: seq<Year>)
    requires ColonFree(apps) && InQueryOrder(apps) && NoTies(apps) && OneCurrentYear(apps, years)
    ensures Repeatable(apps, programs, years)
  {
    forall a, b, y, z ensures Agree(apps, programs, years, a, b, y, z) {
      if Leads(apps, a) && Leads(apps, b) && PairOf(a) == PairOf(b)
         && ValidYear(y, PairOf(a), years) && ValidYear(z, PairOf(a), years)
      {
        assert QueryLeq(a, b) && QueryLeq(b, a);
        assert y == z;
      }
    }
    RepeatableIff(apps, programs, years);
  }

  /** Two tied applications for different programmes of one school: not repeatable, although the
      school has one current year. */
  lemma TiedApplicationsCanSwap() returns (apps: seq<Application>, programs: seq<Program>, years: seq<Year>)
    ensures ColonFree(apps) && InQueryOrder(apps) && OneCurrentYear(apps, years)
    ensures !Repeatable(apps, programs, years)
  {
    var a := Application("u", Offer("s", Some("p")), Some(5), 1);
    var b := Application("u", Offer("s", Some("q")), Some(5), 1);
    var year := Year("y", "s", "2026", true);
    apps, programs, years := [a, b], [Program("p", "s", "P"), Program("q", "s", "Q")], [year];
    assert FindProgram(programs, 0, "p", "s") == Some(programs[0]);
    assert FindProgram(programs, 1, "q", "s") == Some(programs[1]);
    assert Leads(apps, a) && Leads(apps, b);
    assert ValidYear(Some(year), PairOf(a), years);
    OtherChoiceChangesTable(apps, programs, years, a, b, Some(year), Some(year));
  }

  /** Two current years of one school: not repeatable, although there is one application. */
  lemma CurrentYearsCanSwap() returns (apps: seq<Application>, programs: seq<Program>, years: seq<Year>)
    ensures ColonFree(apps) && InQueryOrder(apps) && NoTies(apps)
    ensures !Repeatable(apps, programs, years)
  {
    var a := Application("u", Offer("s", Some("p")), Some(5), 1);
    var y, z := Year("y", "s", "2026", true), Year("z", "s", "2027", true);
    apps, programs, years := [a], [Program("p", "s", "P")], [y, z];
    assert FindProgram(programs, 0, "p", "s") == Some(programs[0]);
    assert Leads(apps, a);
    assert ValidYear(Some(y), PairOf(a), years) && ValidYear(Some(z), PairOf(a), years);
    OtherChoiceChangesTable(apps, programs, years, a, a, Some(y), Some(z));
  }
}
