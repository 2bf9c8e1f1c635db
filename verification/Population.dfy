/** The national seed's students: each index is sent to a school, a programme and a level by
    repeated division, while the class counts grow in a map. */
module Population {
  import opened Residues

  datatype Slug = Slug(text: string)

  /** `stableId(kind, value)`. The hash is kept as a free constructor: equal identifiers come
      from equal kinds and values. */
  datatype Id =
    | SchoolId(slug: Slug)
    | ProgramId(school: Id, slug: Slug)
    | StudentId(index: nat)
    | CourseId(program: Id, courseIndex: nat)
    | SubjectId(school: Id, subjectIndex: nat)
    | TeacherSchoolId(school: Id, teacher: nat)

  datatype Template = Template(slug: Slug, durationYears: nat)
  datatype Catalog = Catalog(schools: seq<Slug>, templates: seq<Template>)
  datatype Program = Program(id: Id, schoolIndex: nat, templateIndex: nat, durationYears: nat)
  datatype Plan = Plan(student: Id, schoolIndex: nat, program: Program, level: nat)

  /** `${program.id}:${level}` */
  type ClassKey = (Id, nat)
  datatype Class = Class(key: ClassKey, studentCount: nat)

  /** The seed's tables: some school, some programme template, every slug used once, every
      programme at least a year long. */
  predicate ValidCatalog(c: Catalog) {
    && c.schools != [] && c.templates != []
    && (forall i, j | 0 <= i < j < |c.schools| :: c.schools[i] != c.schools[j])
    && (forall i, j | 0 <= i < j < |c.templates| :: c.templates[i].slug != c.templates[j].slug)
    && (forall i | 0 <= i < |c.templates| :: c.templates[i].durationYears >= 1)
  }

  function ProgramAt(c: Catalog, s: nat, t: nat): Program
    requires s < |c.schools| && t < |c.templates|
  {
    Program(ProgramId(SchoolId(c.schools[s]), c.templates[t].slug), s, t, c.templates[t].durationYears)
  }

  lemma SameProgram(c: Catalog, s: nat, t: nat, s': nat, t': nat)
    requires ValidCatalog(c) && s < |c.schools| && s' < |c.schools| && t < |c.templates| && t' < |c.templates|
    ensures ProgramAt(c, s, t).id == ProgramAt(c, s', t').id <==> s == s' && t == t'
  {}

  /** Where student `index` goes: the school turns fastest, then the programme, then the level. */
  function PlanOf(c: Catalog, index: nat): Plan
    requires ValidCatalog(c)
  {
    var s := Mod(index, |c.schools|);
    var cohort := Div(index, |c.schools|);
    var t := Mod(cohort, |c.templates|);
    ModBound(index, |c.schools|);
    ModBound(cohort, |c.templates|);
    var program := ProgramAt(c, s, t);
    Plan(StudentId(index), s, program, Mod(Div(cohort, |c.templates|), program.durationYears) + 1)
  }

  function KeyOf(plan: Plan): ClassKey { (plan.program.id, plan.level) }

  /** How many of the first `n` students are planned in a class, and in a programme. */
  function CountKey(c: Catalog, n: nat, key: ClassKey): nat
    requires ValidCatalog(c)
  {
    if n == 0 then 0 else CountKey(c, n - 1, key) + if KeyOf(PlanOf(c, n - 1)) == key then 1 else 0
  }

  function CountProgram(c: Catalog, n: nat, id: Id): nat
    requires ValidCatalog(c)
  {
    if n == 0 then 0 else CountProgram(c, n - 1, id) + if PlanOf(c, n - 1).program.id == id then 1 else 0
  }

  function CountOr0(counts: map<ClassKey, nat>, key: ClassKey): nat {
    if key in counts then counts[key] else 0
  }

  /** Student `i` in the seed's own arithmetic: the school is `i` modulo the number of schools, and
      the programme is one of that school's. */
  predicate Placed(c: Catalog, i: nat, plan: Plan)
    requires ValidCatalog(c)
  {
    var s, cohort := i % |c.schools|, i / |c.schools|;
    var t, round := cohort % |c.templates|, cohort / |c.templates|;
    && plan.student == StudentId(i)
    && plan.schoolIndex == s && plan.program.schoolIndex == s && plan.program.templateIndex == t
    && plan.program.id == ProgramId(SchoolId(c.schools[s]), c.templates[t].slug)
    && plan.program.durationYears == c.templates[t].durationYears
    && plan.level == round % plan.program.durationYears + 1
  }

  lemma PlanIsPlaced(c: Catalog, i: nat)
    requires ValidCatalog(c)
    ensures Placed(c, i, PlanOf(c, i))
  {
    var cohort := i / |c.schools|;
    var t := cohort % |c.templates|;
    ModDiv(i, |c.schools|);
    ModDiv(cohort, |c.templates|);
    ModDiv(cohort / |c.templates|, c.templates[t].durationYears);
  }

  /** One turn of the plan loop. */
  method EnrollStudent(c: Catalog, index: nat, before: map<ClassKey, nat>)
    returns (plan: Plan, classCounts: map<ClassKey, nat>)
    requires ValidCatalog(c)
    ensures plan == PlanOf(c, index)
    ensures classCounts == before[KeyOf(plan) := CountOr0(before, KeyOf(plan)) + 1]
  {
    var schoolIndex: nat := index % |c.schools|;
    var cohort: nat := index / |c.schools|;
    var templateIndex: nat := cohort % |c.templates|;
    var program := ProgramAt(c, schoolIndex, templateIndex);
    var round: nat := cohort / |c.templates|;
    var level: nat := round % program.durationYears + 1;
    ModDiv(index, |c.schools|);
    ModDiv(cohort, |c.templates|);
    ModDiv(round, program.durationYears);
    var classKey: ClassKey := (program.id, level);
    classCounts := before[classKey := CountOr0(before, classKey) + 1];
    plan := Plan(StudentId(index), schoolIndex, program, level);
  }

  method EnrollStudents(c: Catalog, n: nat) returns (enrolledPlans: seq<Plan>, classCounts: map<ClassKey, nat>)
    requires ValidCatalog(c)
    ensures |enrolledPlans| == n && forall i | 0 <= i < n :: enrolledPlans[i] == PlanOf(c, i)
    ensures forall i | 0 <= i < n :: Placed(c, i, enrolledPlans[i])
    ensures forall key :: CountOr0(classCounts, key) == CountKey(c, n, key)
  {
    enrolledPlans, classCounts := [], map[];
    for index := 0 to n
      invariant |enrolledPlans| == index && forall i | 0 <= i < index :: enrolledPlans[i] == PlanOf(c, i)
      invariant forall key :: CountOr0(classCounts, key) == CountKey(c, index, key)
    {
      var plan: Plan;
      plan, classCounts := EnrollStudent(c, index, classCounts);
      enrolledPlans := enrolledPlans + [plan];
    }
    forall i | 0 <= i < n ensures Placed(c, i, enrolledPlans[i]) {
      PlanIsPlaced(c, i);
    }
  }

  // ---------- Balance ----------

  /** The students of programme `(s, t)` are those whose index leaves one remainder. */
  lemma ProgramByRemainder(c: Catalog, s: nat, t: nat, index: nat)
    requires ValidCatalog(c) && s < |c.schools| && t < |c.templates|
    ensures |c.schools| * |c.templates| > 0
    ensures PlanOf(c, index).program.id == ProgramAt(c, s, t).id
      <==> Mod(index, |c.schools| * |c.templates|) == s + |c.schools| * t
  {
    var m, p := |c.schools|, |c.templates|;
    NestedDivision(index, m, p);
    ModBound(index, m);
    ModBound(Div(index, m), p);
    MixedRadix(m, p, s, t);
    MixedRadix(m, p, Mod(index, m), Mod(Div(index, m), p));
    SameProgram(c, Mod(index, m), Mod(Div(index, m), p), s, t);
  }

  lemma {:induction false} ProgramSize(c: Catalog, s: nat, t: nat, n: nat)
    requires ValidCatalog(c) && s < |c.schools| && t < |c.templates|
    ensures |c.schools| * |c.templates| > 0
    ensures CountProgram(c, n, ProgramAt(c, s, t).id)
      == CountResidue(n, |c.schools| * |c.templates|, s + |c.schools| * t)
  {
    NestedDivision(0, |c.schools|, |c.templates|);
    if n > 0 {
      ProgramSize(c, s, t, n - 1);
      ProgramByRemainder(c, s, t, n - 1);
    }
  }

  lemma ProgramSlot(c: Catalog, s: nat, t: nat, n: nat) returns (slot: nat)
    requires ValidCatalog(c) && s < |c.schools| && t < |c.templates|
    ensures slot < |c.schools| * |c.templates|
    ensures CountProgram(c, n, ProgramAt(c, s, t).id) == CountResidue(n, |c.schools| * |c.templates|, slot)
  {
    ProgramSize(c, s, t, n);
    MixedRadix(|c.schools|, |c.templates|, s, t);
    slot := s + |c.schools| * t;
  }

  /** Two programmes of the country differ by at most one student. */
  lemma ProgramBalance(c: Catalog, s: nat, t: nat, s': nat, t': nat, n: nat)
    requires ValidCatalog(c) && s < |c.schools| && t < |c.templates| && s' < |c.schools| && t' < |c.templates|
    ensures CountProgram(c, n, ProgramAt(c, s, t).id) <= CountProgram(c, n, ProgramAt(c, s', t').id) + 1
  {
    var slot := ProgramSlot(c, s, t, n);
    var slot' := ProgramSlot(c, s', t', n);
    CountResiduesClose(n, |c.schools| * |c.templates|, slot, slot');
  }

  /** When a programme receives its next student, that student's round is the number of
      students it already has, so levels are served in turn. */
  lemma NextRound(c: Catalog, s: nat, t: nat, n: nat)
    requires ValidCatalog(c) && s < |c.schools| && t < |c.templates|
    requires PlanOf(c, n).program.id == ProgramAt(c, s, t).id
    ensures Div(Div(n, |c.schools|), |c.templates|) == CountProgram(c, n, ProgramAt(c, s, t).id)
  {
    ProgramByRemainder(c, s, t, n);
    ProgramSize(c, s, t, n);
    NestedDivision(n, |c.schools|, |c.templates|);
    CountBefore(n, |c.schools| * |c.templates|);
  }

  lemma LevelOfNext(c: Catalog, s: nat, t: nat, n: nat)
    requires ValidCatalog(c) && s < |c.schools| && t < |c.templates|
    requires PlanOf(c, n).program.id == ProgramAt(c, s, t).id
    ensures c.templates[t].durationYears > 0
    ensures PlanOf(c, n).level == Mod(CountProgram(c, n, ProgramAt(c, s, t).id), c.templates[t].durationYears) + 1
  {
    NextRound(c, s, t, n);
    ModBound(n, |c.schools|);
    ModBound(Div(n, |c.schools|), |c.templates|);
    SameProgram(c, Mod(n, |c.schools|), Mod(Div(n, |c.schools|), |c.templates|), s, t);
  }

  lemma LevelStep(c: Catalog, s: nat, t: nat, level: nat, n: nat)
    requires ValidCatalog(c) && s < |c.schools| && t < |c.templates|
    requires 1 <= level <= c.templates[t].durationYears
    ensures var id, d := ProgramAt(c, s, t).id, c.templates[t].durationYears;
      CountKey(c, n + 1, (id, level)) - CountKey(c, n, (id, level))
      == CountResidue(CountProgram(c, n + 1, id), d, level - 1) - CountResidue(CountProgram(c, n, id), d, level - 1)
  {
    var id := ProgramAt(c, s, t).id;
    if PlanOf(c, n).program.id == id {
      LevelOfNext(c, s, t, n);
      assert CountProgram(c, n + 1, id) == CountProgram(c, n, id) + 1;
    } else {
      assert CountProgram(c, n + 1, id) == CountProgram(c, n, id);
    }
  }

  lemma {:induction false} LevelSize(c: Catalog, s: nat, t: nat, level: nat, n: nat)
    requires ValidCatalog(c) && s < |c.schools| && t < |c.templates|
    requires 1 <= level <= c.templates[t].durationYears
    ensures CountKey(c, n, (ProgramAt(c, s, t).id, level))
      == CountResidue(CountProgram(c, n, ProgramAt(c, s, t).id), c.templates[t].durationYears, level - 1)
  {
    if n > 0 {
      LevelSize(c, s, t, level, n - 1);
      LevelStep(c, s, t, level, n - 1);
    }
  }

  /** With Q students in a programme of d years, level l has floor((Q + d - l) / d). */
  lemma LevelBalance(c: Catalog, s: nat, t: nat, level: nat, n: nat)
    requires ValidCatalog(c) && s < |c.schools| && t < |c.templates|
    requires 1 <= level <= c.templates[t].durationYears
    ensures var q := CountProgram(c, n, ProgramAt(c, s, t).id);
      var d := c.templates[t].durationYears;
      CountKey(c, n, (ProgramAt(c, s, t).id, level)) == (q + d - level) / d
  {
    LevelSize(c, s, t, level, n);
    CountResidueClosed(CountProgram(c, n, ProgramAt(c, s, t).id), c.templates[t].durationYears, level - 1);
  }

  /** Earlier levels are never smaller, and by at most one student larger. */
  lemma LevelsDifferByOne(c: Catalog, s: nat, t: nat, low: nat, high: nat, n: nat)
    requires ValidCatalog(c) && s < |c.schools| && t < |c.templates|
    requires 1 <= low <= high <= c.templates[t].durationYears
    ensures var id := ProgramAt(c, s, t).id;
      CountKey(c, n, (id, high)) <= CountKey(c, n, (id, low)) <= CountKey(c, n, (id, high)) + 1
  {
    LevelSize(c, s, t, low, n);
    LevelSize(c, s, t, high, n);
    CountResidueBalanced(CountProgram(c, n, ProgramAt(c, s, t).id), c.templates[t].durationYears, low - 1, high - 1);
  }

  // ---------- Classes ----------

  predicate ClassCursor(c: Catalog, s: nat, t: nat, level: nat) {
    && s <= |c.schools| && t <= |c.templates|
    && (s == |c.schools| ==> t == 0)
    && (if s < |c.schools| && t < |c.templates| then level <= c.templates[t].durationYears else level == 0)
  }

  /** The class keys in the order of the seed, up to level `level` of programme `t` of school `s`. */
  function ClassKeys(c: Catalog, s: nat, t: nat, level: nat): seq<ClassKey>
    requires ClassCursor(c, s, t, level)
    decreases s, t, level
  {
    if level > 0 then ClassKeys(c, s, t, level - 1) + [(ProgramAt(c, s, t).id, level)]
    else if t > 0 then ClassKeys(c, s, t - 1, c.templates[t - 1].durationYears)
    else if s > 0 then ClassKeys(c, s - 1, |c.templates|, 0)
    else []
  }

  function AllClassKeys(c: Catalog): seq<ClassKey> { ClassKeys(c, |c.schools|, 0, 0) }

  /** One class record per programme and level, with the count the plan loop left. */
  function Classes(c: Catalog, classCounts: map<ClassKey, nat>): (classes: seq<Class>) {
    var keys := AllClassKeys(c);
    seq(|keys|, i requires 0 <= i < |keys| => Class(keys[i], CountOr0(classCounts, keys[i])))
  }

  /** Occurrences of a key among the first `i`. */
  function Occurs(keys: seq<ClassKey>, i: nat, key: ClassKey): nat
    requires i <= |keys|
  {
    if i == 0 then 0 else Occurs(keys, i - 1, key) + if keys[i - 1] == key then 1 else 0
  }

  lemma {:induction false} OccursPrefix(keys: seq<ClassKey>, last: ClassKey, i: nat, key: ClassKey)
    requires i <= |keys|
    ensures Occurs(keys + [last], i, key) == Occurs(keys, i, key)
  {
    if i > 0 {
      OccursPrefix(keys, last, i - 1, key);
    }
  }

  /** Whether level `l0` of programme `(s0, t0)` comes at or before a cursor. */
  predicate Passed(s: nat, t: nat, level: nat, s0: nat, t0: nat, l0: nat) {
    s0 < s || (s0 == s && (t0 < t || (t0 == t && l0 <= level)))
  }

  lemma {:induction false} ClassKeyOnce(c: Catalog, s: nat, t: nat, level: nat, s0: nat, t0: nat, l0: nat)
    requires ValidCatalog(c) && ClassCursor(c, s, t, level)
    requires s0 < |c.schools| && t0 < |c.templates| && 1 <= l0 <= c.templates[t0].durationYears
    ensures var keys := ClassKeys(c, s, t, level);
      Occurs(keys, |keys|, (ProgramAt(c, s0, t0).id, l0)) == if Passed(s, t, level, s0, t0, l0) then 1 else 0
    decreases s, t, level
  {
    var key := (ProgramAt(c, s0, t0).id, l0);
    if level > 0 {
      ClassKeyOnce(c, s, t, level - 1, s0, t0, l0);
      var before := ClassKeys(c, s, t, level - 1);
      OccursPrefix(before, (ProgramAt(c, s, t).id, level), |before|, key);
      SameProgram(c, s, t, s0, t0);
    } else if t > 0 {
      ClassKeyOnce(c, s, t - 1, c.templates[t - 1].durationYears, s0, t0, l0);
    } else if s > 0 {
      ClassKeyOnce(c, s - 1, |c.templates|, 0, s0, t0, l0);
    }
  }

  /** Every plan falls in exactly one class. */
  lemma PlanHasOneClass(c: Catalog, index: nat)
    requires ValidCatalog(c)
    ensures Occurs(AllClassKeys(c), |AllClassKeys(c)|, KeyOf(PlanOf(c, index))) == 1
  {
    var plan := PlanOf(c, index);
    ModBound(index, |c.schools|);
    ModBound(Div(index, |c.schools|), |c.templates|);
    ModBound(Div(Div(index, |c.schools|), |c.templates|), plan.program.durationYears);
    ClassKeyOnce(c, |c.schools|, 0, 0, plan.program.schoolIndex, plan.program.templateIndex, plan.level);
  }

  // ---------- Conservation ----------

  function SumPlans(c: Catalog, n: nat, weight: ClassKey -> nat): nat
    requires ValidCatalog(c)
  {
    if n == 0 then 0 else SumPlans(c, n - 1, weight) + weight(KeyOf(PlanOf(c, n - 1)))
  }

  /** The first `i` keys, each counted with its students among the first `n`. */
  function SumKeys(keys: seq<ClassKey>, i: nat, c: Catalog, n: nat, weight: ClassKey -> nat): nat
    requires ValidCatalog(c) && i <= |keys|
  {
    if i == 0 then 0 else SumKeys(keys, i - 1, c, n, weight) + CountKey(c, n, keys[i - 1]) * weight(keys[i - 1])
  }

  function SumClasses(classes: seq<Class>, i: nat, weight: ClassKey -> nat): nat
    requires i <= |classes|
  {
    if i == 0 then 0
    else SumClasses(classes, i - 1, weight) + classes[i - 1].studentCount * weight(classes[i - 1].key)
  }

  lemma {:induction false} SumKeysEmpty(keys: seq<ClassKey>, i: nat, c: Catalog, weight: ClassKey -> nat)
    requires ValidCatalog(c) && i <= |keys|
    ensures SumKeys(keys, i, c, 0, weight) == 0
  {
    if i > 0 {
      SumKeysEmpty(keys, i - 1, c, weight);
    }
  }

  lemma OneMore(count: nat, weight: nat)
    ensures (count + 1) * weight == count * weight + weight
  {}

  lemma {:induction false} SumKeysNextPlan(keys: seq<ClassKey>, i: nat, c: Catalog, n: nat, weight: ClassKey -> nat)
    requires ValidCatalog(c) && i <= |keys|
    ensures var key := KeyOf(PlanOf(c, n));
      SumKeys(keys, i, c, n + 1, weight) == SumKeys(keys, i, c, n, weight) + Occurs(keys, i, key) * weight(key)
  {
    if i > 0 {
      SumKeysNextPlan(keys, i - 1, c, n, weight);
      var key := KeyOf(PlanOf(c, n));
      if keys[i - 1] == key {
        OneMore(CountKey(c, n, key), weight(key));
        OneMore(Occurs(keys, i - 1, key), weight(key));
      }
    }
  }

  lemma SumKeysNextPlanOnce(keys: seq<ClassKey>, c: Catalog, n: nat, weight: ClassKey -> nat)
    requires ValidCatalog(c) && Occurs(keys, |keys|, KeyOf(PlanOf(c, n))) == 1
    ensures SumKeys(keys, |keys|, c, n + 1, weight) == SumKeys(keys, |keys|, c, n, weight) + weight(KeyOf(PlanOf(c, n)))
  {
    SumKeysNextPlan(keys, |keys|, c, n, weight);
  }

  lemma {:induction false} SumKeysIsSumPlans(c: Catalog, n: nat, weight: ClassKey -> nat)
    requires ValidCatalog(c)
    ensures SumKeys(AllClassKeys(c), |AllClassKeys(c)|, c, n, weight) == SumPlans(c, n, weight)
  {
    var keys := AllClassKeys(c);
    if n == 0 {
      SumKeysEmpty(keys, |keys|, c, weight);
    } else {
      SumKeysIsSumPlans(c, n - 1, weight);
      PlanHasOneClass(c, n - 1);
      SumKeysNextPlanOnce(keys, c, n - 1, weight);
    }
  }

  lemma {:induction false} SumClassesIsSumKeys(
    c: Catalog, i: nat, n: nat, classCounts: map<ClassKey, nat>, weight: ClassKey -> nat)
    requires ValidCatalog(c) && i <= |AllClassKeys(c)|
    requires forall key :: CountOr0(classCounts, key) == CountKey(c, n, key)
    ensures SumClasses(Classes(c, classCounts), i, weight) == SumKeys(AllClassKeys(c), i, c, n, weight)
  {
    if i > 0 {
      SumClassesIsSumKeys(c, i - 1, n, classCounts, weight);
    }
  }

  /** Whatever each student of a class weighs, the classes' recorded counts account for every
      plan exactly once. */
  lemma Conservation(c: Catalog, n: nat, classCounts: map<ClassKey, nat>, weight: ClassKey -> nat)
    requires ValidCatalog(c)
    requires forall key :: CountOr0(classCounts, key) == CountKey(c, n, key)
    ensures var classes := Classes(c, classCounts);
      SumClasses(classes, |classes|, weight) == SumPlans(c, n, weight)
  {
    SumKeysIsSumPlans(c, n, weight);
    SumClassesIsSumKeys(c, |AllClassKeys(c)|, n, classCounts, weight);
  }

  /** The class counts add up to the number of students. */
  lemma ClassCountsSumToStudents(c: Catalog, n: nat, classCounts: map<ClassKey, nat>)
    requires ValidCatalog(c)
    requires forall key :: CountOr0(classCounts, key) == CountKey(c, n, key)
    ensures var classes := Classes(c, classCounts);
      SumClasses(classes, |classes|, _ => 1) == n
  {
    var one: ClassKey -> nat := _ => 1;
    Conservation(c, n, classCounts, one);
    SumOfOnes(c, n, one);
  }

  lemma {:induction false} SumOfOnes(c: Catalog, n: nat, weight: ClassKey -> nat)
    requires ValidCatalog(c) && forall key :: weight(key) == 1
    ensures SumPlans(c, n, weight) == n
  {
    if n > 0 {
      SumOfOnes(c, n - 1, weight);
    }
  }
}
