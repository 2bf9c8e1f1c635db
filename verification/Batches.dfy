/** Batched inserts that skip duplicates, and the check that follows them. */
module Batches {
  import opened Wrappers

  /** A row with its primary id and a second unique key. */
  datatype Row<D> = Row(id: string, key: string, data: D)

  predicate Clash<D>(a: Row<D>, b: Row<D>) { a.id == b.id || a.key == b.key }

  predicate Blocks<D>(table: seq<Row<D>>, row: Row<D>) {
    exists i :: 0 <= i < |table| && Clash(table[i], row)
  }

  /** `INSERT ... ON CONFLICT DO NOTHING` of one row. */
  function Insert<D>(table: seq<Row<D>>, row: Row<D>): seq<Row<D>> {
    if Blocks(table, row) then table else table + [row]
  }

  /** The first `n` rows inserted one at a time. */
  function InsertFirst<D>(table: seq<Row<D>>, rows: seq<Row<D>>, n: nat): seq<Row<D>>
    requires n <= |rows|
  {
    if n == 0 then table else Insert(InsertFirst(table, rows, n - 1), rows[n - 1])
  }

  function InsertAll<D>(table: seq<Row<D>>, rows: seq<Row<D>>): seq<Row<D>> {
    InsertFirst(table, rows, |rows|)
  }

  predicate HasId<D>(table: seq<Row<D>>, id: string) {
    exists i :: 0 <= i < |table| && table[i].id == id
  }

  /** No two rows of the table share an id or a key. */
  predicate Unique<D>(table: seq<Row<D>>) {
    forall i, j | 0 <= i < j < |table| :: !Clash(table[i], table[j])
  }

  // ---------- Batches ----------

  function Concat<T>(batches: seq<seq<T>>, n: nat): seq<T>
    requires n <= |batches|
  {
    if n == 0 then [] else Concat(batches, n - 1) + batches[n - 1]
  }

  /** Every batch is full, except perhaps the last, which is not empty. */
  predicate WellCut<T>(batches: seq<seq<T>>, size: nat) {
    forall b | 0 <= b < |batches| ::
      if b < |batches| - 1 then |batches[b]| == size else 0 < |batches[b]| <= size
  }

  lemma {:induction false} ConcatPrefix<T>(batches: seq<seq<T>>, last: seq<T>, n: nat)
    requires n <= |batches|
    ensures Concat(batches + [last], n) == Concat(batches, n)
  {
    if n > 0 {
      ConcatPrefix(batches, last, n - 1);
    }
  }

  method Chunks<T>(items: seq<T>, size: nat) returns (result: seq<seq<T>>)
    requires size >= 1
    ensures Concat(result, |result|) == items
    ensures WellCut(result, size)
  {
    result := [];
    var index := 0;
    while index < |items|
      invariant Concat(result, |result|) == items[..if index < |items| then index else |items|]
      invariant WellCut(result, size)
      invariant index < |items| ==> forall b | 0 <= b < |result| :: |result[b]| == size
    {
      var end := if index + size < |items| then index + size else |items|;
      ConcatPrefix(result, items[index..end], |result|);
      assert items[..index] + items[index..end] == items[..end];
      result := result + [items[index..end]];
      index := index + size;
    }
  }

  lemma {:induction false} InsertConcat<D>(table: seq<Row<D>>, a: seq<Row<D>>, b: seq<Row<D>>, n: nat)
    requires n <= |b|
    ensures InsertFirst(table, a + b, |a| + n) == InsertFirst(InsertAll(table, a), b, n)
  {
    if n == 0 {
      InsertPrefix(table, a, b, |a|);
    } else {
      InsertConcat(table, a, b, n - 1);
    }
  }

  lemma {:induction false} InsertPrefix<D>(table: seq<Row<D>>, a: seq<Row<D>>, b: seq<Row<D>>, n: nat)
    requires n <= |a|
    ensures InsertFirst(table, a + b, n) == InsertFirst(table, a, n)
  {
    if n > 0 {
      InsertPrefix(table, a, b, n - 1);
    }
  }

  class Table<D(==)> {
    var rows: seq<Row<D>>

    constructor ()
      ensures rows == []
    {
      rows := [];
    }

    /** `createMany({ data: batch, skipDuplicates: true })` */
    method CreateMany(batch: seq<Row<D>>)
      modifies this
      ensures rows == InsertAll(old(rows), batch)
    {
      for i := 0 to |batch|
        invariant rows == InsertFirst(old(rows), batch, i)
      {
        if !Blocks(rows, batch[i]) {
          rows := rows + [batch[i]];
        }
      }
    }

    /** Whatever the batch size, the table ends as if the rows had been inserted one by one. */
    method CreateInBatches(items: seq<Row<D>>, size: nat)
      requires size >= 1
      modifies this
      ensures rows == InsertAll(old(rows), items)
    {
      var batches := Chunks(items, size);
      for b := 0 to |batches|
        invariant rows == InsertAll(old(rows), Concat(batches, b))
      {
        CreateMany(batches[b]);
        InsertConcat(old(rows), Concat(batches, b), batches[b], |batches[b]|);
      }
    }

    /** `findMany({ where: { id: { in: ids } }, select: { id: true } })` */
    method FindMany(ids: seq<string>) returns (found: set<string>)
      ensures forall id :: id in found <==> id in ids && HasId(rows, id)
    {
      found := {};
      for i := 0 to |ids|
        invariant forall id :: id in found <==> id in ids[..i] && HasId(rows, id)
      {
        if HasId(rows, ids[i]) {
          found := found + {ids[i]};
        }
      }
    }

    /** The check passes exactly when every planned id is in the table; otherwise it reports
        how many planned ids are missing. */
    method AssertPersistedIds(expectedIds: seq<string>, size: nat) returns (result: Result<(), nat>)
      requires size >= 1
      ensures result.Ok? <==> forall i | 0 <= i < |expectedIds| :: HasId(rows, expectedIds[i])
      ensures result.Err? ==> result.error == |Missing(rows, expectedIds, |expectedIds|)|
    {
      var batches := Chunks(expectedIds, size);
      var foundIds: set<string> := {};
      for b := 0 to |batches|
        invariant forall id :: id in foundIds <==> id in Concat(batches, b) && HasId(rows, id)
      {
        var found := FindMany(batches[b]);
        foundIds := foundIds + found;
      }
      var missing := 0;
      for i := 0 to |expectedIds|
        invariant missing == |Missing(rows, expectedIds, i)|
        invariant missing == 0 <==> forall j | 0 <= j < i :: HasId(rows, expectedIds[j])
      {
        MissingNext(rows, expectedIds, i);
        if expectedIds[i] !in foundIds {
          missing := missing + 1;
        }
      }
      result := if missing > 0 then Err(missing) else Ok(());
    }
  }

  /** The places among the first `n` of ids the table does not have. */
  function Missing<D>(table: seq<Row<D>>, ids: seq<string>, n: nat): set<nat>
    requires n <= |ids|
  {
    set i: nat | i < n && !HasId(table, ids[i])
  }

  lemma MissingNext<D>(table: seq<Row<D>>, ids: seq<string>, n: nat)
    requires n < |ids|
    ensures |Missing(table, ids, n + 1)| == |Missing(table, ids, n)| + if HasId(table, ids[n]) then 0 else 1
  {
    assert Missing(table, ids, n + 1) == Missing(table, ids, n) + (if HasId(table, ids[n]) then {} else {n});
  }

  // ---------- What a seed run leaves ----------

  lemma {:induction false} InsertGrows<D>(table: seq<Row<D>>, rows: seq<Row<D>>, m: nat, n: nat)
    requires m <= n <= |rows|
    ensures InsertFirst(table, rows, m) <= InsertFirst(table, rows, n)
  {
    if m < n {
      InsertGrows(table, rows, m, n - 1);
    }
  }

  lemma BlocksGrows<D>(table: seq<Row<D>>, bigger: seq<Row<D>>, row: Row<D>)
    requires table <= bigger && Blocks(table, row)
    ensures Blocks(bigger, row)
  {
    var i :| 0 <= i < |table| && Clash(table[i], row);
    assert bigger[i] == table[i];
  }

  /** After the insert every planned row is in the table or is shadowed by a row of the table. */
  lemma InsertedAreBlocked<D>(table: seq<Row<D>>, rows: seq<Row<D>>, i: nat)
    requires i < |rows|
    ensures Blocks(InsertAll(table, rows), rows[i])
  {
    var after := InsertFirst(table, rows, i + 1);
    if !Blocks(InsertFirst(table, rows, i), rows[i]) {
      assert after[|after| - 1] == rows[i];
      assert Clash(after[|after| - 1], rows[i]);
    }
    assert Blocks(after, rows[i]);
    InsertGrows(table, rows, i + 1, |rows|);
    BlocksGrows(after, InsertAll(table, rows), rows[i]);
  }

  lemma {:induction false} InsertNothing<D>(table: seq<Row<D>>, rows: seq<Row<D>>, n: nat)
    requires n <= |rows| && forall i | 0 <= i < |rows| :: Blocks(table, rows[i])
    ensures InsertFirst(table, rows, n) == table
  {
    if n > 0 {
      InsertNothing(table, rows, n - 1);
    }
  }

  /** Running the seed again changes nothing. */
  lemma RerunChangesNothing<D>(table: seq<Row<D>>, rows: seq<Row<D>>)
    ensures InsertAll(InsertAll(table, rows), rows) == InsertAll(table, rows)
  {
    forall i | 0 <= i < |rows| ensures Blocks(InsertAll(table, rows), rows[i]) {
      InsertedAreBlocked(table, rows, i);
    }
    InsertNothing(InsertAll(table, rows), rows, |rows|);
  }

  /** The unique constraints hold throughout. */
  lemma {:induction false} InsertKeepsUnique<D>(table: seq<Row<D>>, rows: seq<Row<D>>, n: nat)
    requires n <= |rows| && Unique(table)
    ensures Unique(InsertFirst(table, rows, n))
  {
    if n > 0 {
      InsertKeepsUnique(table, rows, n - 1);
    }
  }

  predicate HasKey<D>(table: seq<Row<D>>, key: string) {
    exists i :: 0 <= i < |table| && table[i].key == key
  }

  lemma InsertHasId<D>(table: seq<Row<D>>, row: Row<D>, id: string)
    ensures HasId(Insert(table, row), id) <==> HasId(table, id) || (row.id == id && !Blocks(table, row))
  {
    var after := Insert(table, row);
    if !Blocks(table, row) {
      assert after[|table|] == row;
      if i :| 0 <= i < |table| && table[i].id == id {
        assert after[i].id == id;
      }
    }
  }

  /** Some planned row with this id, among the first `n`, met a table that lacked its second key. */
  predicate Admitted<D>(table: seq<Row<D>>, rows: seq<Row<D>>, n: nat, id: string)
    requires n <= |rows|
  {
    exists j :: 0 <= j < n && rows[j].id == id && !HasKey(InsertFirst(table, rows, j), rows[j].key)
  }

  /** A planned id ends up in the table exactly when the table already had it or a row with that
      id came when no row held its second key. */
  lemma {:induction false} PersistedIff<D>(table: seq<Row<D>>, rows: seq<Row<D>>, n: nat, id: string)
    requires n <= |rows|
    ensures HasId(InsertFirst(table, rows, n), id) <==> HasId(table, id) || Admitted(table, rows, n, id)
  {
    if n > 0 {
      var before, row := InsertFirst(table, rows, n - 1), rows[n - 1];
      PersistedIff(table, rows, n - 1, id);
      InsertHasId(before, row, id);
      assert row.id == id ==> (Blocks(before, row) <==> HasId(before, id) || HasKey(before, row.key));
    }
  }

  /** Row `i` shares neither id nor key with any other planned row. */
  predicate Apart<D>(rows: seq<Row<D>>, i: nat)
    requires i < |rows|
  {
    forall j | 0 <= j < |rows| && j != i :: !Clash(rows[j], rows[i])
  }

  /** Such a row can only be kept out by the old table. */
  lemma {:induction false} BlockedByOldTable<D>(table: seq<Row<D>>, rows: seq<Row<D>>, i: nat, n: nat)
    requires n <= i < |rows| && Apart(rows, i)
    ensures Blocks(InsertFirst(table, rows, n), rows[i]) <==> Blocks(table, rows[i])
    ensures HasId(InsertFirst(table, rows, n), rows[i].id) <==> HasId(table, rows[i].id)
  {
    if n > 0 {
      BlockedByOldTable(table, rows, i, n - 1);
      var before, after := InsertFirst(table, rows, n - 1), InsertFirst(table, rows, n);
      assert !Clash(rows[n - 1], rows[i]);
      InsertHasId(before, rows[n - 1], rows[i].id);
      if Blocks(before, rows[i]) {
        BlocksGrows(before, after, rows[i]);
      }
    }
  }

  lemma {:induction false} LaterRowsKeepId<D>(table: seq<Row<D>>, rows: seq<Row<D>>, i: nat, n: nat)
    requires i < n <= |rows| && Apart(rows, i)
    ensures HasId(InsertFirst(table, rows, n), rows[i].id) <==> HasId(InsertFirst(table, rows, i + 1), rows[i].id)
  {
    if i + 1 < n {
      LaterRowsKeepId(table, rows, i, n - 1);
      assert !Clash(rows[n - 1], rows[i]);
      InsertHasId(InsertFirst(table, rows, n - 1), rows[n - 1], rows[i].id);
    }
  }

  /** The id of a row apart from the others ends up in the table exactly when the old table had
      it or held no row with its second key; so the later check can be foreseen. */
  lemma PersistedIffApart<D>(table: seq<Row<D>>, rows: seq<Row<D>>, i: nat)
    requires i < |rows| && Apart(rows, i)
    ensures HasId(InsertAll(table, rows), rows[i].id) <==> HasId(table, rows[i].id) || !HasKey(table, rows[i].key)
  {
    BlockedByOldTable(table, rows, i, i);
    LaterRowsKeepId(table, rows, i, |rows|);
    InsertHasId(InsertFirst(table, rows, i), rows[i], rows[i].id);
    assert Blocks(table, rows[i]) <==> HasId(table, rows[i].id) || HasKey(table, rows[i].key);
  }

  /** On an empty table, distinct ids and keys: the seed writes its rows, all and in order. */
  lemma {:induction false} FreshSeedWritesAll<D>(rows: seq<Row<D>>, n: nat)
    requires n <= |rows| && Unique(rows)
    ensures InsertFirst([], rows, n) == rows[..n]
  {
    if n > 0 {
      FreshSeedWritesAll(rows, n - 1);
      assert rows[..n] == rows[..n - 1] + [rows[n - 1]];
      assert !Blocks(rows[..n - 1], rows[n - 1]);
    }
  }

  // ---------- Reconciling creation dates ----------

  /** A student's id and planned creation date. */
  datatype Dated = Dated(id: string, createdAt: int)

  /** The distinct dates of the first `n` students, in order of first appearance. */
  function DatesSeen(students: seq<Dated>, n: nat): seq<int>
    requires n <= |students|
  {
    if n == 0 then []
    else
      var before := DatesSeen(students, n - 1);
      if students[n - 1].createdAt in before then before else before + [students[n - 1].createdAt]
  }

  predicate Planned(students: seq<Dated>, id: string, date: int) { Dated(id, date) in students }

  /** The date a student has after the updates of the first `g` dates. */
  function DateAfter(students: seq<Dated>, dates: seq<int>, g: nat, id: string, was: int): int
    requires g <= |dates|
  {
    if g == 0 then was
    else if Planned(students, id, dates[g - 1]) then dates[g - 1]
    else DateAfter(students, dates, g - 1, id, was)
  }

  /** The table after reconciling: each student has the last date of its groups, if it has any. */
  predicate Redated(before: map<string, int>, students: seq<Dated>, dates: seq<int>, g: nat, after: map<string, int>)
    requires g <= |dates|
  {
    && after.Keys == before.Keys
    && forall id | id in before :: after[id] == DateAfter(students, dates, g, id, before[id])
  }

  /** The last group of a student decides. */
  lemma {:induction false} LastGroupDecides(students: seq<Dated>, dates: seq<int>, g: nat, id: string, was: int, h: nat)
    requires h < g <= |dates| && Planned(students, id, dates[h])
    requires forall k | h < k < g :: !Planned(students, id, dates[k])
    ensures DateAfter(students, dates, g, id, was) == dates[h]
  {
    if h < g - 1 {
      LastGroupDecides(students, dates, g - 1, id, was, h);
    }
  }

  lemma {:induction false} UnplannedKeepsDate(students: seq<Dated>, dates: seq<int>, g: nat, id: string, was: int)
    requires g <= |dates| && forall date :: !Planned(students, id, date)
    ensures DateAfter(students, dates, g, id, was) == was
  {
    if g > 0 {
      UnplannedKeepsDate(students, dates, g - 1, id, was);
    }
  }

  lemma {:induction false} EveryDateSeen(students: seq<Dated>, n: nat, i: nat)
    requires i < n <= |students|
    ensures students[i].createdAt in DatesSeen(students, n)
  {
    if i < n - 1 {
      EveryDateSeen(students, n - 1, i);
    }
  }

  /** The dates are listed once each, in the order in which students first bring them. */
  lemma {:induction false} FirstAppearanceOrder(students: seq<Dated>, n: nat, g: nat, h: nat) returns (i: nat)
    requires n <= |students| && g < h < |DatesSeen(students, n)|
    ensures i < n && students[i].createdAt == DatesSeen(students, n)[g]
    ensures forall j | 0 <= j <= i :: students[j].createdAt != DatesSeen(students, n)[h]
  {
    var before, date := DatesSeen(students, n - 1), students[n - 1].createdAt;
    if h < |before| {
      i := FirstAppearanceOrder(students, n - 1, g, h);
    } else {
      i := SomeoneBrings(students, n - 1, g);
      forall j | 0 <= j <= i ensures students[j].createdAt != date {
        EveryDateSeen(students, n - 1, j);
      }
    }
  }

  lemma {:induction false} SomeoneBrings(students: seq<Dated>, n: nat, g: nat) returns (i: nat)
    requires n <= |students| && g < |DatesSeen(students, n)|
    ensures i < n && students[i].createdAt == DatesSeen(students, n)[g]
  {
    if g < |DatesSeen(students, n - 1)| {
      i := SomeoneBrings(students, n - 1, g);
    } else {
      i := n - 1;
    }
  }

  lemma {:induction false} OnlyDate(students: seq<Dated>, dates: seq<int>, g: nat, id: string, was: int, date: int)
    requires g <= |dates| && forall d | Planned(students, id, d) :: d == date
    ensures DateAfter(students, dates, g, id, was)
      == if Planned(students, id, date) && date in dates[..g] then date else was
  {
    if g > 0 {
      OnlyDate(students, dates, g - 1, id, was, date);
      assert dates[..g] == dates[..g - 1] + [dates[g - 1]];
    }
  }

  /** What the reconciliation is for: the planned students of the table carry their planned
      date, and nobody else is touched. */
  ghost predicate Reconciled(before: map<string, int>, students: seq<Dated>, after: map<string, int>) {
    && after.Keys == before.Keys
    && (forall id, date | id in before && Planned(students, id, date) :: after[id] == date)
    && (forall id | id in before && (forall date :: !Planned(students, id, date)) :: after[id] == before[id])
  }

  /** No student of the table is planned with two dates. */
  ghost predicate OneDateEach(before: map<string, int>, students: seq<Dated>) {
    forall id, d, e | id in before && Planned(students, id, d) && Planned(students, id, e) :: d == e
  }

  /** It does what it is for exactly when no student of the table is planned with two dates. */
  lemma ReconciledIff(before: map<string, int>, students: seq<Dated>, after: map<string, int>)
    requires var dates := DatesSeen(students, |students|); Redated(before, students, dates, |dates|, after)
    ensures Reconciled(before, students, after) <==> OneDateEach(before, students)
  {
    var dates := DatesSeen(students, |students|);
    if OneDateEach(before, students) {
      forall id, date | id in before && Planned(students, id, date) ensures after[id] == date {
        OnlyDate(students, dates, |dates|, id, before[id], date);
        var i :| 0 <= i < |students| && students[i] == Dated(id, date);
        EveryDateSeen(students, |students|, i);
        assert dates[..|dates|] == dates;
      }
      forall id | id in before && (forall date :: !Planned(students, id, date)) ensures after[id] == before[id] {
        UnplannedKeepsDate(students, dates, |dates|, id, before[id]);
      }
    }
  }

  lemma PlannedDatesSeen(students: seq<Dated>, n: nat)
    requires n <= |students|
    ensures forall id, date | Planned(students[..n], id, date) :: date in DatesSeen(students, n)
  {
    forall id, date | Planned(students[..n], id, date) ensures date in DatesSeen(students, n) {
      var i :| 0 <= i < n && students[i] == Dated(id, date);
      EveryDateSeen(students, n, i);
    }
  }

  lemma PlannedNext(students: seq<Dated>, n: nat)
    requires n < |students|
    ensures forall id, date ::
      Planned(students[..n + 1], id, date) <==> Planned(students[..n], id, date) || students[n] == Dated(id, date)
  {
    assert students[..n + 1] == students[..n] + [students[n]];
  }

  /** The groups built so far: the dates in order, and under each its students. */
  ghost predicate Grouped(students: seq<Dated>, n: nat, order: seq<int>, idsByDate: map<int, seq<string>>)
    requires n <= |students|
  {
    && order == DatesSeen(students, n)
    && (forall h | 0 <= h < |order| :: order[h] in idsByDate)
    && (forall d | d in idsByDate :: d in order)
    && (forall d, id | d in idsByDate :: id in idsByDate[d] <==> Planned(students[..n], id, d))
  }

  class StudentDates {
    var createdAt: map<string, int>

    /** `updateMany({ where: { id: { in: ids } }, data: { createdAt: date } })` */
    method UpdateMany(ids: seq<string>, date: int)
      modifies this
      ensures createdAt.Keys == old(createdAt).Keys
      ensures forall id | id in createdAt :: createdAt[id] == if id in ids then date else old(createdAt)[id]
    {
      createdAt := map id | id in createdAt :: if id in ids then date else createdAt[id];
    }

    /** One update per distinct date, in the order in which dates first appear. */
    method ReconcileStudentCreatedAt(students: seq<Dated>)
      modifies this
      ensures var dates := DatesSeen(students, |students|);
        Redated(old(createdAt), students, dates, |dates|, createdAt)
    {
      var order, idsByDate := GroupByDate(students);
      assert students[..|students|] == students;
      for g := 0 to |order|
        invariant Redated(old(createdAt), students, order, g, createdAt)
      {
        UpdateMany(idsByDate[order[g]], order[g]);
      }
    }

    static method GroupByDate(students: seq<Dated>) returns (order: seq<int>, idsByDate: map<int, seq<string>>)
      ensures Grouped(students, |students|, order, idsByDate)
    {
      order, idsByDate := [], map[];
      for i := 0 to |students|
        invariant Grouped(students, i, order, idsByDate)
      {
        PlannedDatesSeen(students, i);
        PlannedNext(students, i);
        var key := students[i].createdAt;
        if key !in idsByDate {
          order := order + [key];
        }
        var ids := if key in idsByDate then idsByDate[key] else [];
        idsByDate := idsByDate[key := ids + [students[i].id]];
      }
    }
  }
}
