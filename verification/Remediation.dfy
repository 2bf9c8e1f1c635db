/** The remediation that encrypts the contact fields still stored in clear. The script may be
    stopped at any row and started again; every start reads the tables afresh. */
module Remediation {
  import opened Wrappers
  import opened PiiFormat
  import Utf8

  // ---------- Encrypting one text ----------

  /** AES-256-GCM under the configured key, as a function of the IV and the plaintext. */
  type Gcm = (Bytes16, seq<Byte>) -> Sealed

  /** All that is used of the cipher: a ciphertext is as long as its plaintext. */
  ghost predicate KeepsLength(gcm: Gcm) {
    forall iv: Bytes16, plain: seq<Byte> :: |gcm(iv, plain).cipher| == |plain|
  }

  function Encrypt(gcm: Gcm, iv: Bytes16, text: string): string {
    Format(iv, gcm(iv, Utf8.Encode(text)))
  }

  /** What the script's `if` asks of a nullable column. */
  predicate NeedsEncryption(field: Option<string>) {
    field.Some? && field.value != "" && !LooksAlreadyEncrypted(field.value)
  }

  function EncryptField(gcm: Gcm, iv: Bytes16, field: Option<string>): Option<string> {
    if NeedsEncryption(field) then Some(Encrypt(gcm, iv, field.value)) else field
  }

  /** A text is recognised after encryption exactly when it was not empty. */
  lemma EncryptedIsRecognised(gcm: Gcm, iv: Bytes16, text: string)
    requires KeepsLength(gcm)
    ensures LooksAlreadyEncrypted(Encrypt(gcm, iv, text)) <==> text != ""
  {
    RecognisesFormat(iv, gcm(iv, Utf8.Encode(text)));
  }

  lemma EncryptFieldSettles(gcm: Gcm, iv: Bytes16, field: Option<string>)
    requires KeepsLength(gcm)
    ensures !NeedsEncryption(EncryptField(gcm, iv, field))
    ensures EncryptField(gcm, iv, field) == field <==> !NeedsEncryption(field)
    ensures EncryptField(gcm, iv, field).Some? <==> field.Some?
  {
    if NeedsEncryption(field) {
      EncryptedIsRecognised(gcm, iv, field.value);
    }
  }

  // ---------- The tables ----------

  datatype Student = Student(phone: Option<string>, cin: Option<string>)

  datatype Field = Phone(id: nat) | Cin(id: nat) | TeacherPhone(id: nat)

  datatype Row = StudentRow(id: nat) | TeacherRow(id: nat)

  /** `writes` counts, field by field, the encryptions written so far. */
  datatype Tables = Tables(
    students: map<nat, Student>,
    teachers: map<nat, Option<string>>,
    writes: multiset<Field>)

  function RowOf(f: Field): Row {
    match f
    case Phone(id) => StudentRow(id)
    case Cin(id) => StudentRow(id)
    case TeacherPhone(id) => TeacherRow(id)
  }

  predicate HasRow(t: Tables, row: Row) {
    match row
    case StudentRow(id) => id in t.students
    case TeacherRow(id) => id in t.teachers
  }

  function Value(t: Tables, f: Field): Option<string>
    requires HasRow(t, RowOf(f))
  {
    match f
    case Phone(id) => t.students[id].phone
    case Cin(id) => t.students[id].cin
    case TeacherPhone(id) => t.teachers[id]
  }

  function TreatRow(gcm: Gcm, ivs: Field -> Bytes16, t: Tables, row: Row): Tables
    requires HasRow(t, row)
  {
    match row
    case StudentRow(id) =>
      var s := t.students[id];
      var treated := Student(EncryptField(gcm, ivs(Phone(id)), s.phone), EncryptField(gcm, ivs(Cin(id)), s.cin));
      Tables(
        t.students[id := treated],
        t.teachers,
        t.writes + Mark(Phone(id), s.phone) + Mark(Cin(id), s.cin))
    case TeacherRow(id) =>
      Tables(
        t.students,
        t.teachers[id := EncryptField(gcm, ivs(TeacherPhone(id)), t.teachers[id])],
        t.writes + Mark(TeacherPhone(id), t.teachers[id]))
  }

  function Mark(f: Field, value: Option<string>): multiset<Field> {
    if NeedsEncryption(value) then multiset{f} else multiset{}
  }

  predicate SameRows(t: Tables, t': Tables) {
    t'.students.Keys == t.students.Keys && t'.teachers.Keys == t.teachers.Keys
  }

  // ---------- One run ----------

  /** A start of the script: the rows its two queries return, in the order the database
      chose, the random IV it draws for each field it encrypts, and the number of rows it
      treats before it stops. */
  datatype Run = Run(studentIds: seq<nat>, teacherIds: seq<nat>, ivs: Field -> Bytes16, stop: nat)

  predicate Distinct(ids: seq<nat>) { forall i, j :: 0 <= i < j < |ids| ==> ids[i] != ids[j] }

  /** `where: { OR: [{ phone: { not: null } }, { cin: { not: null } }] }` */
  predicate StudentSelected(t: Tables, id: nat) {
    id in t.students && (t.students[id].phone.Some? || t.students[id].cin.Some?)
  }

  predicate TeacherSelected(t: Tables, id: nat) { id in t.teachers && t.teachers[id].Some? }

  ghost predicate Finds(t: Tables, run: Run) {
    && Distinct(run.studentIds)
    && Distinct(run.teacherIds)
    && (forall id :: id in run.studentIds <==> StudentSelected(t, id))
    && (forall id :: id in run.teacherIds <==> TeacherSelected(t, id))
    && run.stop <= |run.studentIds| + |run.teacherIds|
  }

  predicate Complete(run: Run) { run.stop == |run.studentIds| + |run.teacherIds| }

  function RowCount(run: Run): nat { |run.studentIds| + |run.teacherIds| }

  /** The `k`-th row of a run: the students found, then the teachers found. */
  function RowAt(run: Run, k: nat): Row
    requires k < RowCount(run)
  {
    if k < |run.studentIds| then StudentRow(run.studentIds[k]) else TeacherRow(run.teacherIds[k - |run.studentIds|])
  }

  lemma FoundRowsExist(t: Tables, run: Run)
    requires Finds(t, run)
    ensures run.stop <= RowCount(run)
    ensures forall i :: 0 <= i < RowCount(run) ==> HasRow(t, RowAt(run, i))
  {
    forall i | 0 <= i < RowCount(run) ensures HasRow(t, RowAt(run, i)) {
      if i < |run.studentIds| {
        assert run.studentIds[i] in run.studentIds;
      } else {
        assert run.teacherIds[i - |run.studentIds|] in run.teacherIds;
      }
    }
  }

  lemma TreatRowEffect(gcm: Gcm, ivs: Field -> Bytes16, t: Tables, row: Row, f: Field)
    requires HasRow(t, row) && HasRow(t, RowOf(f))
    ensures var t' := TreatRow(gcm, ivs, t, row);
      && HasRow(t', RowOf(f))
      && Value(t', f) == (if RowOf(f) == row then EncryptField(gcm, ivs(f), Value(t, f)) else Value(t, f))
      && t'.writes[f] == t.writes[f] + (if RowOf(f) == row && NeedsEncryption(Value(t, f)) then 1 else 0)
  {}

  predicate Reached(run: Run, n: nat, row: Row)
    requires n <= RowCount(run)
  {
    exists i :: 0 <= i < n && RowAt(run, i) == row
  }

  /** What became of a field: treated once if its row was reached, however often. */
  predicate Treated(gcm: Gcm, iv: Bytes16, f: Field, t: Tables, t': Tables, reached: bool)
    requires HasRow(t, RowOf(f)) && HasRow(t', RowOf(f))
  {
    && Value(t', f) == (if reached then EncryptField(gcm, iv, Value(t, f)) else Value(t, f))
    && t'.writes[f] == t.writes[f] + (if reached && NeedsEncryption(Value(t, f)) then 1 else 0)
  }

  lemma TreatedStep(gcm: Gcm, ivs: Field -> Bytes16, t: Tables, u: Tables, row: Row, f: Field, reached: bool)
    requires KeepsLength(gcm)
    requires HasRow(t, RowOf(f)) && HasRow(u, RowOf(f)) && HasRow(u, row)
    requires Treated(gcm, ivs(f), f, t, u, reached)
    ensures HasRow(TreatRow(gcm, ivs, u, row), RowOf(f))
    ensures Treated(gcm, ivs(f), f, t, TreatRow(gcm, ivs, u, row), reached || row == RowOf(f))
  {
    TreatRowEffect(gcm, ivs, u, row, f);
    EncryptFieldSettles(gcm, ivs(f), Value(t, f));
  }

  lemma ReachedStep(run: Run, n: nat, row: Row)
    requires 0 < n <= RowCount(run)
    ensures Reached(run, n, row) == (Reached(run, n - 1, row) || RowAt(run, n - 1) == row)
  {}

  /** What the tables hold once a run has passed its first `n` rows, field by field. */
  ghost predicate AfterRows(gcm: Gcm, t: Tables, run: Run, n: nat, t': Tables) {
    && n <= RowCount(run)
    && SameRows(t, t')
    && (forall f :: HasRow(t, RowOf(f)) ==> Treated(gcm, run.ivs(f), f, t, t', Reached(run, n, RowOf(f))))
    && (forall f :: !HasRow(t, RowOf(f)) ==> t'.writes[f] == t.writes[f])
  }

  ghost predicate RunStep(gcm: Gcm, t: Tables, run: Run, t': Tables) {
    Finds(t, run) && AfterRows(gcm, t, run, run.stop, t')
  }

  /** The tables a run leaves are determined by those it started from. */
  lemma RunIsDeterministic(gcm: Gcm, t: Tables, run: Run, t1: Tables, t2: Tables)
    requires RunStep(gcm, t, run, t1) && RunStep(gcm, t, run, t2)
    ensures t1 == t2
  {
    forall f | HasRow(t1, RowOf(f)) ensures Value(t1, f) == Value(t2, f) && t1.writes[f] == t2.writes[f] {
      assert HasRow(t, RowOf(f));
      assert Treated(gcm, run.ivs(f), f, t, t1, Reached(run, run.stop, RowOf(f)));
      assert Treated(gcm, run.ivs(f), f, t, t2, Reached(run, run.stop, RowOf(f)));
    }
    SameFields(t1, t2);
  }

  lemma SameFields(t1: Tables, t2: Tables)
    requires SameRows(t1, t2)
    requires forall f :: HasRow(t1, RowOf(f)) ==> Value(t1, f) == Value(t2, f)
    requires forall f :: t1.writes[f] == t2.writes[f]
    ensures t1 == t2
  {
    forall id | id in t1.students ensures t1.students[id] == t2.students[id] {
      assert HasRow(t1, RowOf(Phone(id))) && HasRow(t1, RowOf(Cin(id)));
      assert Value(t1, Phone(id)) == Value(t2, Phone(id)) && Value(t1, Cin(id)) == Value(t2, Cin(id));
    }
    forall id | id in t1.teachers ensures t1.teachers[id] == t2.teachers[id] {
      assert HasRow(t1, RowOf(TeacherPhone(id)));
      assert Value(t1, TeacherPhone(id)) == Value(t2, TeacherPhone(id));
    }
  }

  lemma AfterRowsStep(gcm: Gcm, t: Tables, run: Run, n: nat, u: Tables)
    requires KeepsLength(gcm) && Finds(t, run) && n < RowCount(run) && AfterRows(gcm, t, run, n, u)
    ensures HasRow(u, RowAt(run, n))
    ensures AfterRows(gcm, t, run, n + 1, TreatRow(gcm, run.ivs, u, RowAt(run, n)))
  {
    FoundRowsExist(t, run);
    var row := RowAt(run, n);
    assert HasRow(t, row) && HasRow(u, row);
    var u' := TreatRow(gcm, run.ivs, u, row);
    forall f | HasRow(t, RowOf(f))
      ensures HasRow(u', RowOf(f)) && Treated(gcm, run.ivs(f), f, t, u', Reached(run, n + 1, RowOf(f)))
    {
      assert Treated(gcm, run.ivs(f), f, t, u, Reached(run, n, RowOf(f)));
      TreatedStep(gcm, run.ivs, t, u, row, f, Reached(run, n, RowOf(f)));
      ReachedStep(run, n + 1, RowOf(f));
    }
    forall f | !HasRow(t, RowOf(f)) ensures u'.writes[f] == t.writes[f] {
      TreatRowMarks(gcm, run.ivs, u, row, f);
    }
  }

  lemma TreatRowMarks(gcm: Gcm, ivs: Field -> Bytes16, t: Tables, row: Row, f: Field)
    requires HasRow(t, row) && RowOf(f) != row
    ensures TreatRow(gcm, ivs, t, row).writes[f] == t.writes[f]
  {}

  /** The rows a run reaches are enough: a complete run reaches every field holding a value. */
  lemma CompleteReaches(t: Tables, run: Run, f: Field)
    requires Finds(t, run) && Complete(run) && HasRow(t, RowOf(f)) && Value(t, f).Some?
    ensures run.stop == RowCount(run) && Reached(run, run.stop, RowOf(f))
  {
    match RowOf(f) {
      case StudentRow(id) =>
        assert StudentSelected(t, id);
        var i :| 0 <= i < |run.studentIds| && run.studentIds[i] == id;
        assert RowAt(run, i) == RowOf(f);
      case TeacherRow(id) =>
        assert TeacherSelected(t, id);
        var i :| 0 <= i < |run.teacherIds| && run.teacherIds[i] == id;
        assert RowAt(run, |run.studentIds| + i) == RowOf(f);
    }
  }

  /** A run treats the fields of the rows it reached; a complete one settles every field. */
  lemma RunEffect(gcm: Gcm, t: Tables, run: Run, t': Tables, f: Field) returns (reached: bool)
    requires KeepsLength(gcm) && RunStep(gcm, t, run, t') && HasRow(t, RowOf(f))
    ensures HasRow(t', RowOf(f)) && Treated(gcm, run.ivs(f), f, t, t', reached)
    ensures Complete(run) ==> reached
  {
    assert Treated(gcm, run.ivs(f), f, t, t', Reached(run, run.stop, RowOf(f)));
    reached := Complete(run) || Reached(run, run.stop, RowOf(f));
    if Complete(run) && Value(t, f).Some? {
      CompleteReaches(t, run, f);
    }
  }

  // ---------- Any number of runs ----------

  /** A history of runs: `states[k]` is what the tables hold when run `k` starts, and every
      run starts from the rows its own queries find then. */
  ghost predicate History(gcm: Gcm, states: seq<Tables>, runs: seq<Run>) {
    && |states| == |runs| + 1
    && forall k | 0 <= k < |runs| :: RunStep(gcm, states[k], runs[k], states[k + 1])
  }

  /** What is true of one field at any time after the first start: it is as it was, or it
      holds its original text encrypted once, under the IV a run drew for it. */
  ghost predicate AtMostOnce(gcm: Gcm, start: Tables, now: Tables, runs: seq<Run>, f: Field)
    requires HasRow(start, RowOf(f)) && HasRow(now, RowOf(f))
  {
    var v, v' := Value(start, f), Value(now, f);
    || (v' == v && now.writes[f] == start.writes[f])
    || (NeedsEncryption(v) && now.writes[f] == start.writes[f] + 1 && EncryptedByOne(gcm, runs, f, v.value, v'))
  }

  ghost predicate EncryptedByOne(gcm: Gcm, runs: seq<Run>, f: Field, text: string, v': Option<string>) {
    exists k :: 0 <= k < |runs| && v' == Some(Encrypt(gcm, runs[k].ivs(f), text))
  }

  lemma AtMostOnceStep(gcm: Gcm, start: Tables, t: Tables, runs: seq<Run>, k: nat, t': Tables, f: Field)
    requires KeepsLength(gcm) && k < |runs| && RunStep(gcm, t, runs[k], t')
    requires HasRow(start, RowOf(f)) && HasRow(t, RowOf(f)) && AtMostOnce(gcm, start, t, runs, f)
    ensures HasRow(t', RowOf(f)) && AtMostOnce(gcm, start, t', runs, f)
  {
    var _ := RunEffect(gcm, t, runs[k], t', f);
    var v := Value(start, f);
    if NeedsEncryption(v) {
      forall j | 0 <= j < |runs| ensures !NeedsEncryption(Some(Encrypt(gcm, runs[j].ivs(f), v.value))) {
        EncryptFieldSettles(gcm, runs[j].ivs(f), v);
      }
    }
  }

  lemma {:induction false} NeverTwice(gcm: Gcm, states: seq<Tables>, runs: seq<Run>, k: nat, f: Field)
    requires KeepsLength(gcm) && History(gcm, states, runs) && k <= |runs| && HasRow(states[0], RowOf(f))
    ensures HasRow(states[k], RowOf(f)) && AtMostOnce(gcm, states[0], states[k], runs, f)
  {
    if k > 0 {
      var j := k - 1;
      NeverTwice(gcm, states, runs, j, f);
      assert RunStep(gcm, states[j], runs[j], states[j + 1]);
      AtMostOnceStep(gcm, states[0], states[j], runs, j, states[k], f);
    }
  }

  /** Exactly once: when the last of any runs is complete, every field that needed it was
      encrypted by one write, over its original text; no other field was touched. */
  lemma ExactlyOnce(gcm: Gcm, states: seq<Tables>, runs: seq<Run>, f: Field)
    requires KeepsLength(gcm) && History(gcm, states, runs) && HasRow(states[0], RowOf(f))
    requires runs != [] && Complete(runs[|runs| - 1])
    ensures var start, end := states[0], states[|runs|];
      && HasRow(end, RowOf(f))
      && (NeedsEncryption(Value(start, f)) ==>
           && end.writes[f] == start.writes[f] + 1
           && EncryptedByOne(gcm, runs, f, Value(start, f).value, Value(end, f)))
      && (!NeedsEncryption(Value(start, f)) ==> end.writes[f] == start.writes[f] && Value(end, f) == Value(start, f))
      && !NeedsEncryption(Value(end, f))
  {
    var n := |runs|;
    NeverTwice(gcm, states, runs, n, f);
    NeverTwice(gcm, states, runs, n - 1, f);
    var _ := RunEffect(gcm, states[n - 1], runs[n - 1], states[n], f);
    EncryptFieldSettles(gcm, runs[n - 1].ivs(f), Value(states[n - 1], f));
  }

  lemma {:induction false} RowsKept(gcm: Gcm, states: seq<Tables>, runs: seq<Run>, k: nat)
    requires History(gcm, states, runs) && k <= |runs|
    ensures SameRows(states[0], states[k])
  {
    if k > 0 {
      RowsKept(gcm, states, runs, k - 1);
    }
  }

  /** After a complete run, however many came before it, a further run changes nothing. */
  lemma NextRunWritesNothing(gcm: Gcm, states: seq<Tables>, runs: seq<Run>, next: Run, t': Tables)
    requires KeepsLength(gcm) && History(gcm, states, runs)
    requires runs != [] && Complete(runs[|runs| - 1]) && RunStep(gcm, states[|runs|], next, t')
    ensures t' == states[|runs|]
  {
    var end := states[|runs|];
    RowsKept(gcm, states, runs, |runs|);
    forall f | HasRow(end, RowOf(f)) ensures Value(t', f) == Value(end, f) && t'.writes[f] == end.writes[f] {
      assert HasRow(states[0], RowOf(f));
      ExactlyOnce(gcm, states, runs, f);
      var _ := RunEffect(gcm, end, next, t', f);
    }
    SameFields(end, t');
  }

  // ---------- The counters ----------

  function Phones(t: Tables): map<nat, Option<string>> { map id | id in t.students :: t.students[id].phone }

  function Cins(t: Tables): map<nat, Option<string>> { map id | id in t.students :: t.students[id].cin }

  /** The ids whose entry is not the same in both columns. */
  function Differing<T(==)>(m: map<nat, T>, m': map<nat, T>): set<nat>
    requires m.Keys == m'.Keys
  {
    set id | id in m && m'[id] != m[id]
  }

  lemma DifferingStep<T>(m: map<nat, T>, u: map<nat, T>, id: nat, v: T)
    requires m.Keys == u.Keys && id in m && u[id] == m[id]
    ensures |Differing(m, u[id := v])| == |Differing(m, u)| + (if v == m[id] then 0 else 1)
  {
    assert Differing(m, u[id := v]) == Differing(m, u) + (if v == m[id] then {} else {id});
  }

  datatype Counters = Counters(phones: nat, cins: nat, teacherPhones: nat)

  function Tick(field: Option<string>): nat { if NeedsEncryption(field) then 1 else 0 }

  predicate Counts(c: Counters, t: Tables, t': Tables)
    requires SameRows(t, t')
  {
    && c.phones == |Differing(Phones(t), Phones(t'))|
    && c.cins == |Differing(Cins(t), Cins(t'))|
    && c.teacherPhones == |Differing(t.teachers, t'.teachers)|
  }

  function Ticked(c: Counters, t: Tables, row: Row): Counters
    requires HasRow(t, row)
  {
    match row
    case StudentRow(id) =>
      Counters(c.phones + Tick(t.students[id].phone), c.cins + Tick(t.students[id].cin), c.teacherPhones)
    case TeacherRow(id) => Counters(c.phones, c.cins, c.teacherPhones + Tick(t.teachers[id]))
  }

  function RowValue(t: Tables, row: Row): seq<Option<string>>
    requires HasRow(t, row)
  {
    match row
    case StudentRow(id) => [t.students[id].phone, t.students[id].cin]
    case TeacherRow(id) => [t.teachers[id]]
  }

  lemma CountsStep(gcm: Gcm, ivs: Field -> Bytes16, c: Counters, t: Tables, u: Tables, row: Row)
    requires KeepsLength(gcm) && SameRows(t, u) && HasRow(t, row) && HasRow(u, row)
    requires RowValue(u, row) == RowValue(t, row) && Counts(c, t, u)
    ensures SameRows(t, TreatRow(gcm, ivs, u, row))
    ensures Counts(Ticked(c, t, row), t, TreatRow(gcm, ivs, u, row))
  {
    match row {
      case StudentRow(id) =>
        StudentColumns(gcm, ivs, t, u, id);
        EncryptFieldSettles(gcm, ivs(Phone(id)), t.students[id].phone);
        EncryptFieldSettles(gcm, ivs(Cin(id)), t.students[id].cin);
        DifferingStep(Phones(t), Phones(u), id, EncryptField(gcm, ivs(Phone(id)), t.students[id].phone));
        DifferingStep(Cins(t), Cins(u), id, EncryptField(gcm, ivs(Cin(id)), t.students[id].cin));
      case TeacherRow(id) =>
        assert RowValue(u, row)[0] == RowValue(t, row)[0];
        EncryptFieldSettles(gcm, ivs(TeacherPhone(id)), t.teachers[id]);
        DifferingStep(t.teachers, u.teachers, id, EncryptField(gcm, ivs(TeacherPhone(id)), t.teachers[id]));
    }
  }

  lemma StudentColumns(gcm: Gcm, ivs: Field -> Bytes16, t: Tables, u: Tables, id: nat)
    requires SameRows(t, u) && id in t.students && RowValue(u, StudentRow(id)) == RowValue(t, StudentRow(id))
    ensures var s, u' := t.students[id], TreatRow(gcm, ivs, u, StudentRow(id));
      && u.students[id] == s
      && Phones(u') == Phones(u)[id := EncryptField(gcm, ivs(Phone(id)), s.phone)]
      && Cins(u') == Cins(u)[id := EncryptField(gcm, ivs(Cin(id)), s.cin)]
      && u'.teachers == u.teachers
  {
    assert u.students[id].phone == RowValue(u, StudentRow(id))[0] == t.students[id].phone;
    assert u.students[id].cin == RowValue(u, StudentRow(id))[1] == t.students[id].cin;
  }

  /** A row not yet passed is as the queries returned it. */
  lemma RowsAheadUntouched(gcm: Gcm, t: Tables, run: Run, n: nat, u: Tables)
    requires Finds(t, run) && n < RowCount(run) && AfterRows(gcm, t, run, n, u)
    ensures HasRow(t, RowAt(run, n)) && HasRow(u, RowAt(run, n))
    ensures RowValue(u, RowAt(run, n)) == RowValue(t, RowAt(run, n))
  {
    FoundRowsExist(t, run);
    var row := RowAt(run, n);
    assert HasRow(t, row) && !Reached(run, n, row);
    match row {
      case StudentRow(id) =>
        assert Treated(gcm, run.ivs(Phone(id)), Phone(id), t, u, Reached(run, n, RowOf(Phone(id))));
        assert Treated(gcm, run.ivs(Cin(id)), Cin(id), t, u, Reached(run, n, RowOf(Cin(id))));
      case TeacherRow(id) =>
        var f := TeacherPhone(id);
        assert Treated(gcm, run.ivs(f), f, t, u, Reached(run, n, RowOf(f)));
    }
  }

  /** The state after `n` rows of a run, with the counters of those rows. */
  ghost predicate Progress(gcm: Gcm, t: Tables, run: Run, n: nat, now: Tables, c: Counters) {
    AfterRows(gcm, t, run, n, now) && Counts(c, t, now)
  }

  lemma ProgressStart(gcm: Gcm, t: Tables, run: Run)
    requires Finds(t, run)
    ensures Progress(gcm, t, run, 0, t, Counters(0, 0, 0))
  {
    assert Differing(Phones(t), Phones(t)) == {};
    assert Differing(Cins(t), Cins(t)) == {};
    assert Differing(t.teachers, t.teachers) == {};
  }

  lemma ProgressStep(gcm: Gcm, t: Tables, run: Run, n: nat, now: Tables, c: Counters)
    requires KeepsLength(gcm) && Finds(t, run) && n < RowCount(run) && Progress(gcm, t, run, n, now, c)
    ensures var row := RowAt(run, n);
      && HasRow(t, row) && HasRow(now, row) && RowValue(now, row) == RowValue(t, row)
      && Progress(gcm, t, run, n + 1, TreatRow(gcm, run.ivs, now, row), Ticked(c, t, row))
  {
    RowsAheadUntouched(gcm, t, run, n, now);
    AfterRowsStep(gcm, t, run, n, now);
    CountsStep(gcm, run.ivs, c, t, now, RowAt(run, n));
  }

  /** The rows the two queries return. */
  function FindStudents(students: map<nat, Student>, ids: seq<nat>): seq<Student>
    requires forall k :: 0 <= k < |ids| ==> ids[k] in students
  {
    seq(|ids|, k requires 0 <= k < |ids| => students[ids[k]])
  }

  function FindTeachers(teachers: map<nat, Option<string>>, ids: seq<nat>): seq<Option<string>>
    requires forall k :: 0 <= k < |ids| ==> ids[k] in teachers
  {
    seq(|ids|, k requires 0 <= k < |ids| => teachers[ids[k]])
  }

  /** The `data` of an update: the columns to be written. */
  function Patched(s: Student, phone: Option<string>, cin: Option<string>): Student {
    Student(if phone.Some? then phone else s.phone, if cin.Some? then cin else s.cin)
  }

  function Draft(gcm: Gcm, iv: Bytes16, field: Option<string>): Option<string> {
    if NeedsEncryption(field) then Some(Encrypt(gcm, iv, field.value)) else None
  }

  lemma UpdateTreatsStudent(gcm: Gcm, ivs: Field -> Bytes16, t: Tables, id: nat)
    requires id in t.students
    ensures var s := t.students[id];
      var phone, cin := Draft(gcm, ivs(Phone(id)), s.phone), Draft(gcm, ivs(Cin(id)), s.cin);
      TreatRow(gcm, ivs, t, StudentRow(id)).students
      == if phone.Some? || cin.Some? then t.students[id := Patched(s, phone, cin)] else t.students
  {
    assert t.students[id := t.students[id]] == t.students;
  }

  lemma SameStudent(t: Tables, u: Tables, id: nat)
    requires id in t.students && id in u.students && RowValue(u, StudentRow(id)) == RowValue(t, StudentRow(id))
    ensures u.students[id] == t.students[id]
  {
    assert u.students[id].phone == RowValue(u, StudentRow(id))[0] == t.students[id].phone;
    assert u.students[id].cin == RowValue(u, StudentRow(id))[1] == t.students[id].cin;
  }

  lemma FoundIds(t: Tables, run: Run)
    requires Finds(t, run)
    ensures forall k :: 0 <= k < |run.studentIds| ==> run.studentIds[k] in t.students
    ensures forall k :: 0 <= k < |run.teacherIds| ==> run.teacherIds[k] in t.teachers
  {
    assert forall k :: 0 <= k < |run.studentIds| ==> run.studentIds[k] in run.studentIds;
    assert forall k :: 0 <= k < |run.teacherIds| ==> run.teacherIds[k] in run.teacherIds;
  }

  lemma StudentStep(gcm: Gcm, t: Tables, run: Run, i: nat, now: Tables, c: Counters)
    requires KeepsLength(gcm) && Finds(t, run) && i < |run.studentIds| && Progress(gcm, t, run, i, now, c)
    ensures var id := run.studentIds[i];
      && id in t.students && id in now.students && now.students[id] == t.students[id]
      && Progress(gcm, t, run, i + 1, TreatRow(gcm, run.ivs, now, StudentRow(id)), Ticked(c, t, StudentRow(id)))
  {
    ProgressStep(gcm, t, run, i, now, c);
    assert RowAt(run, i) == StudentRow(run.studentIds[i]);
    SameStudent(t, now, run.studentIds[i]);
  }

  lemma TeacherStep(gcm: Gcm, t: Tables, run: Run, n: nat, now: Tables, c: Counters)
    requires KeepsLength(gcm) && Finds(t, run) && |run.studentIds| <= n < RowCount(run)
    requires Progress(gcm, t, run, n, now, c)
    ensures var id := run.teacherIds[n - |run.studentIds|];
      && id in t.teachers && id in now.teachers && now.teachers[id] == t.teachers[id]
      && Progress(gcm, t, run, n + 1, TreatRow(gcm, run.ivs, now, TeacherRow(id)), Ticked(c, t, TeacherRow(id)))
  {
    ProgressStep(gcm, t, run, n, now, c);
    var id := run.teacherIds[n - |run.studentIds|];
    assert RowAt(run, n) == TeacherRow(id);
    assert RowValue(now, TeacherRow(id))[0] == t.teachers[id];
  }

  class PiiTables {
    var students: map<nat, Student>
    var teachers: map<nat, Option<string>>
    ghost var writes: multiset<Field>

    ghost function State(): Tables
      reads this
    {
      Tables(students, teachers, writes)
    }

    /** The body of the student loop; `student` is the row as the query returned it. */
    method EncryptStudent(gcm: Gcm, ivs: Field -> Bytes16, id: nat, student: Student) returns (phones: nat, cins: nat)
      requires id in students && students[id] == student
      modifies this
      ensures State() == TreatRow(gcm, ivs, old(State()), StudentRow(id))
      ensures phones == Tick(student.phone) && cins == Tick(student.cin)
    {
      UpdateTreatsStudent(gcm, ivs, State(), id);
      phones, cins := 0, 0;
      var phone: Option<string>, cin: Option<string> := None, None;
      if NeedsEncryption(student.phone) {
        phone := Some(Encrypt(gcm, ivs(Phone(id)), student.phone.value));
        phones := phones + 1;
      }
      if NeedsEncryption(student.cin) {
        cin := Some(Encrypt(gcm, ivs(Cin(id)), student.cin.value));
        cins := cins + 1;
      }
      writes := writes + Mark(Phone(id), student.phone) + Mark(Cin(id), student.cin);
      if phone.Some? || cin.Some? {
        students := students[id := Patched(students[id], phone, cin)];
      }
    }

    method EncryptTeacher(gcm: Gcm, ivs: Field -> Bytes16, id: nat, phone: Option<string>) returns (phones: nat)
      requires id in teachers && teachers[id] == phone
      modifies this
      ensures State() == TreatRow(gcm, ivs, old(State()), TeacherRow(id))
      ensures phones == Tick(phone)
    {
      phones := 0;
      if NeedsEncryption(phone) {
        teachers := teachers[id := Some(Encrypt(gcm, ivs(TeacherPhone(id)), phone.value))];
        phones := 1;
        writes := writes + multiset{TeacherPhone(id)};
      }
      assert teachers == old(teachers)[id := teachers[id]];
    }

    method TreatStudent(gcm: Gcm, ghost start: Tables, run: Run, i: nat, student: Student, counted: Counters)
      returns (c: Counters)
      requires KeepsLength(gcm) && Finds(start, run) && Progress(gcm, start, run, i, State(), counted)
      requires i < |run.studentIds|
      requires var id := run.studentIds[i]; id in start.students && student == start.students[id]
      modifies this
      ensures Progress(gcm, start, run, i + 1, State(), c) && teachers == old(teachers)
    {
      StudentStep(gcm, start, run, i, State(), counted);
      var phones, cins := EncryptStudent(gcm, run.ivs, run.studentIds[i], student);
      c := Counters(counted.phones + phones, counted.cins + cins, counted.teacherPhones);
    }

    method TreatTeacher(gcm: Gcm, ghost start: Tables, run: Run, n: nat, phone: Option<string>, counted: Counters)
      returns (c: Counters)
      requires KeepsLength(gcm) && Finds(start, run) && Progress(gcm, start, run, n, State(), counted)
      requires |run.studentIds| <= n < RowCount(run)
      requires var id := run.teacherIds[n - |run.studentIds|]; id in start.teachers && phone == start.teachers[id]
      modifies this
      ensures Progress(gcm, start, run, n + 1, State(), c)
    {
      TeacherStep(gcm, start, run, n, State(), counted);
      var phones := EncryptTeacher(gcm, run.ivs, run.teacherIds[n - |run.studentIds|], phone);
      c := Counters(counted.phones, counted.cins, counted.teacherPhones + phones);
    }

    /** The loop over the students found, up to the row where the run stops. */
    method EncryptStudents(gcm: Gcm, run: Run) returns (c: Counters, i: nat)
      requires KeepsLength(gcm) && Finds(State(), run)
      modifies this
      ensures i == if run.stop < |run.studentIds| then run.stop else |run.studentIds|
      ensures Progress(gcm, old(State()), run, i, State(), c) && teachers == old(teachers)
    {
      ghost var start := State();
      ProgressStart(gcm, start, run);
      FoundIds(start, run);
      var found := FindStudents(students, run.studentIds);
      c, i := Counters(0, 0, 0), 0;
      while i < |found| && i < run.stop
        invariant i <= |found| && i <= run.stop
        invariant Progress(gcm, start, run, i, State(), c) && teachers == start.teachers
      {
        c := TreatStudent(gcm, start, run, i, found[i], c);
        i := i + 1;
      }
    }

    method EncryptTeachers(gcm: Gcm, ghost start: Tables, run: Run, counted: Counters) returns (c: Counters)
      requires KeepsLength(gcm) && Finds(start, run) && |run.studentIds| <= run.stop
      requires Progress(gcm, start, run, |run.studentIds|, State(), counted) && teachers == start.teachers
      modifies this
      ensures Progress(gcm, start, run, run.stop, State(), c)
    {
      FoundIds(start, run);
      var found := FindTeachers(teachers, run.teacherIds);
      c := counted;
      var i, n := 0, |run.studentIds|;
      while n < run.stop
        invariant n == |run.studentIds| + i <= run.stop
        invariant Progress(gcm, start, run, n, State(), c)
      {
        c := TreatTeacher(gcm, start, run, n, found[i], c);
        i, n := i + 1, n + 1;
      }
    }

    /** One start of the script. `done` says that it was not stopped; its counters are then
        the numbers of phones, identity numbers and teacher phones it changed. */
    method EncryptPlaintextPii(gcm: Gcm, run: Run) returns (done: bool, c: Counters)
      requires KeepsLength(gcm) && Finds(State(), run)
      modifies this
      ensures RunStep(gcm, old(State()), run, State())
      ensures done == Complete(run)
      ensures done ==> Counts(c, old(State()), State())
    {
      ghost var start := State();
      var reached: nat;
      c, reached := EncryptStudents(gcm, run);
      if reached == |run.studentIds| {
        c := EncryptTeachers(gcm, start, run, c);
      }
      done := Complete(run);
    }
  }
}
