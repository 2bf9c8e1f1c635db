/** Courses, their teachers and their pupils in the national seed. */
module Teaching {
  import opened Residues
  import opened Population
  import opened Wrappers

  datatype Requirement = Requirement(program: Id, courseIndex: nat, level: nat, subject: Id, teacherSchool: Id)
  datatype Qualification = Qualification(teacherSchool: Id, subject: Id)

  /** What the course loop leaves: one requirement and one course per (programme, subject),
      the course pools per programme level, and the qualifications. */
  datatype Curriculum = Curriculum(
    requirements: seq<Requirement>,
    pools: map<ClassKey, seq<Id>>,
    qualifications: map<(Id, Id), Qualification>)

  /** `list[index % list.length]` */
  function Turn(list: seq<Id>, index: nat): Id
    requires list != []
  {
    if index < |list| then list[index] else Turn(list, index - |list|)
  }

  lemma {:induction false} TurnIsModulo(list: seq<Id>, index: nat)
    requires list != []
    ensures Mod(index, |list|) < |list| && Turn(list, index) == list[Mod(index, |list|)]
  {
    if index >= |list| {
      TurnIsModulo(list, index - |list|);
    }
  }

  /** Position of a programme's course `i` among all the courses of its school, `t * subjects + i`. */
  function Position(t: nat, subjects: nat, i: nat): nat {
    if t == 0 then i else subjects + Position(t - 1, subjects, i)
  }

  lemma {:induction false} PositionIsProduct(t: nat, subjects: nat, i: nat)
    ensures Position(t, subjects, i) == t * subjects + i
  {
    if t > 0 {
      PositionIsProduct(t - 1, subjects, i);
      assert t * subjects == (t - 1) * subjects + subjects;
    }
  }

  lemma {:induction false} PositionNext(t: nat, subjects: nat, m: nat)
    ensures Position(t, subjects, m + 1) == Position(t, subjects, m) + 1
    ensures Position(t + 1, subjects, 0) == Position(t, subjects, subjects)
  {
    if t > 0 {
      PositionNext(t - 1, subjects, m);
    }
  }

  predicate IsProgram(p: Program) { p.id.ProgramId? && p.durationYears >= 1 }

  /** Requirement `i` of a programme: levels turn with the index, and the teacher is the next
      one of the school counting over all its programmes, `subjects` in each. */
  function RequirementAt(p: Program, teachers: seq<Id>, subjects: nat, i: nat): Requirement
    requires IsProgram(p) && teachers != []
  {
    Requirement(p.id, i, Mod(i, p.durationYears) + 1, SubjectId(p.id.school, i),
                Turn(teachers, Position(p.templateIndex, subjects, i)))
  }

  predicate HasTeachers(p: Program, roster: map<Id, seq<Id>>)
    requires IsProgram(p)
  {
    p.id.school in roster && roster[p.id.school] != []
  }

  predicate Staffed(programs: seq<Program>, n: nat, roster: map<Id, seq<Id>>)
    requires n <= |programs| && forall i | 0 <= i < |programs| :: IsProgram(programs[i])
  {
    forall i | 0 <= i < n :: HasTeachers(programs[i], roster)
  }

  predicate Cursor(programs: seq<Program>, subjects: nat, roster: map<Id, seq<Id>>, p: nat, m: nat) {
    && p <= |programs| && (if p == |programs| then m == 0 else m <= subjects)
    && (forall i | 0 <= i < |programs| :: IsProgram(programs[i]))
    && Staffed(programs, if m > 0 then p + 1 else p, roster)
  }

  /** The requirements of the first `p` programmes and of the first `m` subjects of the next. */
  function Requirements(
    programs: seq<Program>, subjects: nat, roster: map<Id, seq<Id>>, p: nat, m: nat): seq<Requirement>
    requires Cursor(programs, subjects, roster, p, m)
    decreases p, m
  {
    if m > 0 then
      Requirements(programs, subjects, roster, p, m - 1)
      + [RequirementAt(programs[p], roster[programs[p].id.school], subjects, m - 1)]
    else if p > 0 then Requirements(programs, subjects, roster, p - 1, subjects)
    else []
  }

  /** The courses of one programme level among the first `n` requirements, in creation order. */
  function Pool(requirements: seq<Requirement>, n: nat, key: ClassKey): seq<Id>
    requires n <= |requirements|
  {
    if n == 0 then []
    else
      var r := requirements[n - 1];
      Pool(requirements, n - 1, key) + if (r.program, r.level) == key then [CourseId(r.program, r.courseIndex)] else []
  }

  lemma {:induction false} PoolPrefix(requirements: seq<Requirement>, last: Requirement, n: nat, key: ClassKey)
    requires n <= |requirements|
    ensures Pool(requirements + [last], n, key) == Pool(requirements, n, key)
  {
    if n > 0 {
      PoolPrefix(requirements, last, n - 1, key);
    }
  }

  lemma PoolAppend(requirements: seq<Requirement>, r: Requirement, key: ClassKey)
    ensures Pool(requirements + [r], |requirements| + 1, key)
      == Pool(requirements, |requirements|, key)
       + if (r.program, r.level) == key then [CourseId(r.program, r.courseIndex)] else []
  {
    PoolPrefix(requirements, r, |requirements|, key);
  }

  function PoolOr(pools: map<ClassKey, seq<Id>>, key: ClassKey): seq<Id> {
    if key in pools then pools[key] else []
  }

  /** The pools hold every course of their level, in order. */
  ghost predicate PoolsMatch(curriculum: Curriculum) {
    forall key :: PoolOr(curriculum.pools, key) == Pool(curriculum.requirements, |curriculum.requirements|, key)
  }

  /** The qualifications are exactly the (affectation, subject) pairs some requirement uses. */
  predicate QualificationsMatch(curriculum: Curriculum) {
    && (forall r | r in curriculum.requirements :: (r.teacherSchool, r.subject) in curriculum.qualifications)
    && (forall pair | pair in curriculum.qualifications ::
          && curriculum.qualifications[pair] == Qualification(pair.0, pair.1)
          && exists i | 0 <= i < |curriculum.requirements| ::
               (curriculum.requirements[i].teacherSchool, curriculum.requirements[i].subject) == pair)
  }

  function AddRequirement(curriculum: Curriculum, r: Requirement): Curriculum {
    var key := (r.program, r.level);
    Curriculum(
      curriculum.requirements + [r],
      curriculum.pools[key := PoolOr(curriculum.pools, key) + [CourseId(r.program, r.courseIndex)]],
      curriculum.qualifications[(r.teacherSchool, r.subject) := Qualification(r.teacherSchool, r.subject)])
  }

  lemma AddKeepsPools(curriculum: Curriculum, r: Requirement)
    requires PoolsMatch(curriculum)
    ensures PoolsMatch(AddRequirement(curriculum, r))
  {
    forall key
      ensures PoolOr(AddRequirement(curriculum, r).pools, key)
        == Pool(curriculum.requirements + [r], |curriculum.requirements| + 1, key)
    {
      PoolAppend(curriculum.requirements, r, key);
    }
  }

  lemma AddKeepsQualifications(curriculum: Curriculum, r: Requirement)
    requires QualificationsMatch(curriculum)
    ensures QualificationsMatch(AddRequirement(curriculum, r))
  {
    var after := AddRequirement(curriculum, r);
    forall pair | pair in after.qualifications
      ensures exists i | 0 <= i < |after.requirements| ::
        (after.requirements[i].teacherSchool, after.requirements[i].subject) == pair
    {
      if pair == (r.teacherSchool, r.subject) {
        assert after.requirements[|curriculum.requirements|] == r;
      } else {
        var i :| 0 <= i < |curriculum.requirements|
          && (curriculum.requirements[i].teacherSchool, curriculum.requirements[i].subject) == pair;
        assert after.requirements[i] == curriculum.requirements[i];
      }
    }
  }

  ghost predicate Matches(curriculum: Curriculum) { PoolsMatch(curriculum) && QualificationsMatch(curriculum) }

  lemma AddKeepsMatches(curriculum: Curriculum, r: Requirement)
    requires Matches(curriculum)
    ensures Matches(AddRequirement(curriculum, r))
  {
    AddKeepsPools(curriculum, r);
    AddKeepsQualifications(curriculum, r);
  }

  lemma InTurn(p: Program, teachers: seq<Id>, subjects: nat, i: nat)
    requires IsProgram(p) && teachers != []
    ensures RequirementAt(p, teachers, subjects, i) == Requirement(
      p.id, i, i % p.durationYears + 1, SubjectId(p.id.school, i),
      teachers[(p.templateIndex * subjects + i) % |teachers|])
  {
    PositionIsProduct(p.templateIndex, subjects, i);
    var turn := Position(p.templateIndex, subjects, i);
    ModDiv(i, p.durationYears);
    ModDiv(turn, |teachers|);
    TurnIsModulo(teachers, turn);
  }

  /** One turn of the inner loop: the requirement, its qualification and its course. */
  method AddCourse(program: Program, schoolTeachers: seq<Id>, subjects: nat, courseIndex: nat, before: Curriculum)
    returns (after: Curriculum)
    requires IsProgram(program) && schoolTeachers != [] && Matches(before)
    ensures after.requirements == before.requirements + [RequirementAt(program, schoolTeachers, subjects, courseIndex)]
    ensures Matches(after)
  {
    AddKeepsMatches(before, RequirementAt(program, schoolTeachers, subjects, courseIndex));
    var level: nat := courseIndex % program.durationYears + 1;
    var teacher := schoolTeachers[(program.templateIndex * subjects + courseIndex) % |schoolTeachers|];
    InTurn(program, schoolTeachers, subjects, courseIndex);
    var subject := SubjectId(program.id.school, courseIndex);
    var requirements := before.requirements + [Requirement(program.id, courseIndex, level, subject, teacher)];
    var teacherQualifications := before.qualifications[(teacher, subject) := Qualification(teacher, subject)];
    var coursePoolKey: ClassKey := (program.id, level);
    var coursePool := PoolOr(before.pools, coursePoolKey) + [CourseId(program.id, courseIndex)];
    after := Curriculum(requirements, before.pools[coursePoolKey := coursePool], teacherQualifications);
    assert after == AddRequirement(before, RequirementAt(program, schoolTeachers, subjects, courseIndex));
  }

  // ---------- The loop over programmes ----------

  /** `new Map(classes.map((c) => [`${c.programId}:${c.level}`, c]))` */
  function ClassByKey(classes: seq<Class>, n: nat): map<ClassKey, Class>
    requires n <= |classes|
  {
    if n == 0 then map[] else ClassByKey(classes, n - 1)[classes[n - 1].key := classes[n - 1]]
  }

  /** Course `i` of a programme finds the class of its level. */
  predicate ClassFound(p: Program, i: nat, classes: map<ClassKey, Class>)
    requires IsProgram(p)
  {
    (p.id, Mod(i, p.durationYears) + 1) in classes
  }

  predicate ClassesFound(p: Program, m: nat, classes: map<ClassKey, Class>)
    requires IsProgram(p)
  {
    forall i | 0 <= i < m :: ClassFound(p, i, classes)
  }

  /** The two errors that stop the loop. */
  datatype PlanError = NoTeacher | NoClass

  predicate ProgramFails(
    p: Program, roster: map<Id, seq<Id>>, subjects: nat, classes: map<ClassKey, Class>, error: PlanError)
    requires IsProgram(p)
  {
    match error
    case NoTeacher => !HasTeachers(p, roster)
    case NoClass => HasTeachers(p, roster) && !ClassesFound(p, subjects, classes)
  }

  predicate AllClassesFound(programs: seq<Program>, n: nat, subjects: nat, classes: map<ClassKey, Class>)
    requires n <= |programs| && forall i | 0 <= i < |programs| :: IsProgram(programs[i])
  {
    forall p | 0 <= p < n :: ClassesFound(programs[p], subjects, classes)
  }

  method FindsClass(program: Program, courseIndex: nat, classes: map<ClassKey, Class>) returns (found: bool)
    requires IsProgram(program)
    ensures found <==> ClassFound(program, courseIndex, classes)
  {
    ModDiv(courseIndex, program.durationYears);
    var level: nat := courseIndex % program.durationYears + 1;
    found := (program.id, level) in classes;
  }

  /** The plan has reached subject `m` of programme `p`. */
  ghost predicate Planned(
    programs: seq<Program>, roster: map<Id, seq<Id>>, subjects: nat, p: nat, m: nat, curriculum: Curriculum)
  {
    && Cursor(programs, subjects, roster, p, m)
    && Matches(curriculum) && curriculum.requirements == Requirements(programs, subjects, roster, p, m)
  }

  method PlanCourse(
    programs: seq<Program>, roster: map<Id, seq<Id>>, subjects: nat, classes: map<ClassKey, Class>, p: nat,
    courseIndex: nat, before: Curriculum)
    returns (found: bool, after: Curriculum)
    requires p < |programs| && courseIndex < subjects
    requires Planned(programs, roster, subjects, p, courseIndex, before) && HasTeachers(programs[p], roster)
    requires ClassesFound(programs[p], courseIndex, classes)
    ensures found ==> ClassesFound(programs[p], courseIndex + 1, classes)
    ensures !found ==> !ClassesFound(programs[p], subjects, classes)
    ensures found ==> Planned(programs, roster, subjects, p, courseIndex + 1, after)
  {
    after := before;
    found := FindsClass(programs[p], courseIndex, classes);
    if found {
      after := AddCourse(programs[p], roster[programs[p].id.school], subjects, courseIndex, before);
    }
  }

  /** The inner loop, over the subjects of programme `p`, up to the first course without class. */
  method PlanProgram(
    programs: seq<Program>, roster: map<Id, seq<Id>>, subjects: nat, classes: map<ClassKey, Class>, p: nat,
    before: Curriculum)
    returns (found: bool, after: Curriculum)
    requires p < |programs| && Planned(programs, roster, subjects, p, 0, before) && HasTeachers(programs[p], roster)
    ensures found <==> ClassesFound(programs[p], subjects, classes)
    ensures found ==> Planned(programs, roster, subjects, p + 1, 0, after)
  {
    found, after := true, before;
    for courseIndex := 0 to subjects
      invariant Planned(programs, roster, subjects, p, courseIndex, after)
      invariant ClassesFound(programs[p], courseIndex, classes) && found
    {
      found, after := PlanCourse(programs, roster, subjects, classes, p, courseIndex, after);
      if !found {
        return;
      }
    }
    NextProgram(programs, roster, subjects, p, after);
  }

  lemma NextProgram(programs: seq<Program>, roster: map<Id, seq<Id>>, subjects: nat, p: nat, curriculum: Curriculum)
    requires p < |programs| && Planned(programs, roster, subjects, p, subjects, curriculum)
    requires IsProgram(programs[p]) && HasTeachers(programs[p], roster)
    ensures Planned(programs, roster, subjects, p + 1, 0, curriculum)
  {}

  /** The loop over programmes. It stops on the first programme whose school has no teacher, or
      one of whose courses has no class. */
  method PlanCourses(programs: seq<Program>, roster: map<Id, seq<Id>>, subjects: nat, classes: seq<Class>)
    returns (result: Result<Curriculum, PlanError>)
    requires forall i | 0 <= i < |programs| :: IsProgram(programs[i])
    ensures result.Ok? <==>
      && Staffed(programs, |programs|, roster)
      && AllClassesFound(programs, |programs|, subjects, ClassByKey(classes, |classes|))
    ensures result.Ok? ==> Planned(programs, roster, subjects, |programs|, 0, result.value)
    ensures result.Err? ==> exists p | 0 <= p < |programs| ::
      && Staffed(programs, p, roster) && AllClassesFound(programs, p, subjects, ClassByKey(classes, |classes|))
      && ProgramFails(programs[p], roster, subjects, ClassByKey(classes, |classes|), result.error)
  {
    var classByProgramLevel := ClassByKey(classes, |classes|);
    var curriculum := Curriculum([], map[], map[]);
    for p := 0 to |programs|
      invariant Planned(programs, roster, subjects, p, 0, curriculum)
      invariant AllClassesFound(programs, p, subjects, classByProgramLevel)
    {
      var program := programs[p];
      if program.id.school !in roster || roster[program.id.school] == [] {
        assert ProgramFails(programs[p], roster, subjects, classByProgramLevel, NoTeacher);
        return Err(NoTeacher);
      }
      var found: bool;
      found, curriculum := PlanProgram(programs, roster, subjects, classByProgramLevel, p, curriculum);
      if !found {
        assert ProgramFails(programs[p], roster, subjects, classByProgramLevel, NoClass);
        return Err(NoClass);
      }
    }
    result := Ok(curriculum);
  }

  // ---------- The seed's own programmes ----------

  predicate SeedCursor(c: Catalog, s: nat, t: nat) {
    s <= |c.schools| && t <= |c.templates| && (s == |c.schools| ==> t == 0)
  }

  /** `schools.flatMap(school => templates.map(...))`, up to template `t` of school `s`. */
  function Programs(c: Catalog, s: nat, t: nat): seq<Program>
    requires SeedCursor(c, s, t)
    decreases s, t
  {
    if t > 0 then Programs(c, s, t - 1) + [ProgramAt(c, s, t - 1)]
    else if s > 0 then Programs(c, s - 1, |c.templates|)
    else []
  }

  function AllPrograms(c: Catalog): seq<Program> { Programs(c, |c.schools|, 0) }

  lemma {:induction false} ProgramIndex(c: Catalog, s: nat, t: nat, s0: nat, t0: nat)
    requires SeedCursor(c, s, t)
    ensures |Programs(c, s, t)| == Position(s, |c.templates|, t)
    ensures s0 < |c.schools| && t0 < |c.templates| && (s0 < s || (s0 == s && t0 < t)) ==>
      Position(s0, |c.templates|, t0) < |Programs(c, s, t)|
      && Programs(c, s, t)[Position(s0, |c.templates|, t0)] == ProgramAt(c, s0, t0)
    decreases s, t
  {
    if t > 0 {
      ProgramIndex(c, s, t - 1, s0, t0);
      PositionNext(s, |c.templates|, t - 1);
    } else if s > 0 {
      ProgramIndex(c, s - 1, |c.templates|, s0, t0);
      PositionNext(s - 1, |c.templates|, 0);
    }
  }

  lemma {:induction false} ProgramsAreSeeds(c: Catalog, s: nat, t: nat)
    requires ValidCatalog(c) && SeedCursor(c, s, t)
    ensures forall i | 0 <= i < |Programs(c, s, t)| ::
      var p := Programs(c, s, t)[i];
      && IsProgram(p) && p.schoolIndex < |c.schools| && p.templateIndex < |c.templates|
      && p == ProgramAt(c, p.schoolIndex, p.templateIndex)
    decreases s, t
  {
    if t > 0 {
      ProgramsAreSeeds(c, s, t - 1);
    } else if s > 0 {
      ProgramsAreSeeds(c, s - 1, |c.templates|);
    }
  }

  /** The teachers of school `s`, `count` of them, each assigned to that school. */
  function SchoolTeachers(c: Catalog, s: nat, count: nat): (teachers: seq<Id>)
    requires s < |c.schools|
    ensures |teachers| == count
    ensures forall k | 0 <= k < count :: teachers[k] == TeacherSchoolId(SchoolId(c.schools[s]), k)
  {
    seq(count, k requires 0 <= k => TeacherSchoolId(SchoolId(c.schools[s]), k))
  }

  /** Every school has at least one teacher. */
  predicate Counts(c: Catalog, counts: seq<nat>) {
    |counts| == |c.schools| && forall s | 0 <= s < |counts| :: counts[s] > 0
  }

  /** The roster lists each school's own teachers. */
  predicate RosterFor(c: Catalog, counts: seq<nat>, roster: map<Id, seq<Id>>) {
    && Counts(c, counts)
    && forall s | 0 <= s < |c.schools| ::
         SchoolId(c.schools[s]) in roster && roster[SchoolId(c.schools[s])] == SchoolTeachers(c, s, counts[s])
  }

  lemma SeedIsStaffed(c: Catalog, counts: seq<nat>, roster: map<Id, seq<Id>>)
    requires ValidCatalog(c) && RosterFor(c, counts, roster)
    ensures forall i | 0 <= i < |AllPrograms(c)| :: IsProgram(AllPrograms(c)[i])
    ensures Staffed(AllPrograms(c), |AllPrograms(c)|, roster)
  {
    ProgramsAreSeeds(c, |c.schools|, 0);
  }

  lemma {:induction false} ClassIsFiled(classes: seq<Class>, n: nat, i: nat)
    requires i < n <= |classes|
    ensures classes[i].key in ClassByKey(classes, n)
  {
    if i < n - 1 {
      ClassIsFiled(classes, n - 1, i);
    }
  }

  lemma {:induction false} OccurringKey(keys: seq<ClassKey>, n: nat, key: ClassKey) returns (i: nat)
    requires n <= |keys| && Occurs(keys, n, key) > 0
    ensures i < n && keys[i] == key
  {
    if keys[n - 1] == key {
      i := n - 1;
    } else {
      i := OccurringKey(keys, n - 1, key);
    }
  }

  lemma ProgramFindsClasses(c: Catalog, classCounts: map<ClassKey, nat>, s: nat, t: nat, subjects: nat)
    requires ValidCatalog(c) && s < |c.schools| && t < |c.templates|
    ensures var classes := Classes(c, classCounts);
      ClassesFound(ProgramAt(c, s, t), subjects, ClassByKey(classes, |classes|))
  {
    var classes, keys, p := Classes(c, classCounts), AllClassKeys(c), ProgramAt(c, s, t);
    forall i | 0 <= i < subjects ensures ClassFound(p, i, ClassByKey(classes, |classes|)) {
      ModBound(i, p.durationYears);
      ClassKeyOnce(c, |c.schools|, 0, 0, s, t, Mod(i, p.durationYears) + 1);
      var k := OccurringKey(keys, |keys|, (p.id, Mod(i, p.durationYears) + 1));
      ClassIsFiled(classes, |classes|, k);
    }
  }

  /** On the seed's own schools, classes and teachers neither error can occur. */
  lemma SeedNeverFails(
    c: Catalog, counts: seq<nat>, roster: map<Id, seq<Id>>, classCounts: map<ClassKey, nat>, subjects: nat)
    requires ValidCatalog(c) && RosterFor(c, counts, roster)
    ensures forall i | 0 <= i < |AllPrograms(c)| :: IsProgram(AllPrograms(c)[i])
    ensures Staffed(AllPrograms(c), |AllPrograms(c)|, roster)
    ensures var classes := Classes(c, classCounts);
      AllClassesFound(AllPrograms(c), |AllPrograms(c)|, subjects, ClassByKey(classes, |classes|))
  {
    SeedIsStaffed(c, counts, roster);
    ProgramsAreSeeds(c, |c.schools|, 0);
    var classes, programs := Classes(c, classCounts), AllPrograms(c);
    forall p | 0 <= p < |programs| ensures ClassesFound(programs[p], subjects, ClassByKey(classes, |classes|)) {
      ProgramFindsClasses(c, classCounts, programs[p].schoolIndex, programs[p].templateIndex, subjects);
    }
  }

  /** The requirements of the whole seed up to subject `m` of programme `(s, t)`. */
  function SeedRequirements(c: Catalog, counts: seq<nat>, subjects: nat, s: nat, t: nat, m: nat): seq<Requirement>
    requires ValidCatalog(c) && Counts(c, counts) && SeedCursor(c, s, t)
    requires if s < |c.schools| && t < |c.templates| then m <= subjects else m == 0
    decreases s, t, m
  {
    if m > 0 then
      SeedRequirements(c, counts, subjects, s, t, m - 1)
      + [RequirementAt(ProgramAt(c, s, t), SchoolTeachers(c, s, counts[s]), subjects, m - 1)]
    else if t > 0 then SeedRequirements(c, counts, subjects, s, t - 1, subjects)
    else if s > 0 then SeedRequirements(c, counts, subjects, s - 1, |c.templates|, 0)
    else []
  }

  /** Walking the flat list of programmes is walking schools and templates in turn. */
  lemma {:induction false} RequirementsOfSeed(
    c: Catalog, counts: seq<nat>, roster: map<Id, seq<Id>>, subjects: nat, s: nat, t: nat, m: nat)
    requires ValidCatalog(c) && RosterFor(c, counts, roster) && SeedCursor(c, s, t)
    requires if s < |c.schools| && t < |c.templates| then m <= subjects else m == 0
    ensures Cursor(AllPrograms(c), subjects, roster, Position(s, |c.templates|, t), m)
    ensures Requirements(AllPrograms(c), subjects, roster, Position(s, |c.templates|, t), m)
      == SeedRequirements(c, counts, subjects, s, t, m)
    decreases s, t, m
  {
    CursorOfSeed(c, counts, roster, subjects, s, t, m);
    if m > 0 {
      RequirementsOfSeed(c, counts, roster, subjects, s, t, m - 1);
      ProgramIndex(c, |c.schools|, 0, s, t);
    } else if t > 0 {
      RequirementsOfSeed(c, counts, roster, subjects, s, t - 1, subjects);
      PositionNext(s, |c.templates|, t - 1);
    } else if s > 0 {
      RequirementsOfSeed(c, counts, roster, subjects, s - 1, |c.templates|, 0);
      PositionNext(s - 1, |c.templates|, 0);
    }
  }

  lemma CursorOfSeed(c: Catalog, counts: seq<nat>, roster: map<Id, seq<Id>>, subjects: nat, s: nat, t: nat, m: nat)
    requires ValidCatalog(c) && RosterFor(c, counts, roster) && SeedCursor(c, s, t)
    requires if s < |c.schools| && t < |c.templates| then m <= subjects else m == 0
    ensures Cursor(AllPrograms(c), subjects, roster, Position(s, |c.templates|, t), m)
  {
    SeedIsStaffed(c, counts, roster);
    ProgramIndex(c, |c.schools|, 0, s, t);
    if t == |c.templates| {
      PositionNext(s, |c.templates|, 0);
      PositionGrows(s + 1, |c.schools|, |c.templates|);
    } else {
      PositionGrows(s, |c.schools|, |c.templates|);
    }
  }

  lemma {:induction false} PositionGrows(s: nat, s': nat, size: nat)
    requires s <= s'
    ensures Position(s, size, 0) <= Position(s', size, 0)
    decreases s'
  {
    if s < s' {
      PositionGrows(s, s' - 1, size);
      PositionNext(s' - 1, size, 0);
      PositionAtLeast(s' - 1, size, size);
    }
  }

  lemma {:induction false} PositionAtLeast(t: nat, size: nat, i: nat)
    ensures Position(t, size, i) == Position(t, size, 0) + i
  {
    if t > 0 {
      PositionAtLeast(t - 1, size, i);
    }
  }

  // ---------- Round-robin of the teachers ----------

  function Load(requirements: seq<Requirement>, n: nat, teacherSchool: Id): nat
    requires n <= |requirements|
  {
    if n == 0 then 0
    else
      Load(requirements, n - 1, teacherSchool) + (if requirements[n - 1].teacherSchool == teacherSchool then 1 else 0)
  }

  lemma {:induction false} LoadPrefix(requirements: seq<Requirement>, last: Requirement, n: nat, teacherSchool: Id)
    requires n <= |requirements|
    ensures Load(requirements + [last], n, teacherSchool) == Load(requirements, n, teacherSchool)
  {
    if n > 0 {
      LoadPrefix(requirements, last, n - 1, teacherSchool);
    }
  }

  lemma LoadAppend(requirements: seq<Requirement>, last: Requirement, teacherSchool: Id)
    ensures Load(requirements + [last], |requirements| + 1, teacherSchool)
      == Load(requirements, |requirements|, teacherSchool) + if last.teacherSchool == teacherSchool then 1 else 0
  {
    LoadPrefix(requirements, last, |requirements|, teacherSchool);
  }

  lemma TurnOfTeachers(c: Catalog, s: nat, count: nat, index: nat)
    requires s < |c.schools| && count > 0
    ensures Turn(SchoolTeachers(c, s, count), index) == TeacherSchoolId(SchoolId(c.schools[s]), Mod(index, count))
  {
    TurnIsModulo(SchoolTeachers(c, s, count), index);
  }

  lemma LoadNext(
    c: Catalog, counts: seq<nat>, before: seq<Requirement>, subjects: nat, s: nat, t: nat, m: nat, s0: nat,
    k: nat)
    requires ValidCatalog(c) && s < |c.schools| && t < |c.templates| && s0 < |c.schools|
    requires |counts| == |c.schools| && counts[s] > 0
    ensures var rs := before + [RequirementAt(ProgramAt(c, s, t), SchoolTeachers(c, s, counts[s]), subjects, m)];
      Load(rs, |rs|, TeacherSchoolId(SchoolId(c.schools[s0]), k))
      == Load(before, |before|, TeacherSchoolId(SchoolId(c.schools[s0]), k))
       + if s0 == s && Mod(Position(t, subjects, m), counts[s]) == k then 1 else 0
  {
    var r := RequirementAt(ProgramAt(c, s, t), SchoolTeachers(c, s, counts[s]), subjects, m);
    LoadAppend(before, r, TeacherSchoolId(SchoolId(c.schools[s0]), k));
    TurnOfTeachers(c, s, counts[s], Position(t, subjects, m));
  }

  /** What teacher `k` of school `s0` should have at a cursor of the seed. */
  function ExpectedLoad(c: Catalog, counts: seq<nat>, subjects: nat, s: nat, t: nat, m: nat, s0: nat, k: nat): nat
    requires s0 < |counts| && k < counts[s0]
  {
    if s0 < s then CountResidue(Position(|c.templates|, subjects, 0), counts[s0], k)
    else if s0 == s then CountResidue(Position(t, subjects, m), counts[s0], k)
    else 0
  }

  lemma ExpectedNext(c: Catalog, counts: seq<nat>, subjects: nat, s: nat, t: nat, m: nat, s0: nat, k: nat)
    requires s0 < |counts| && k < counts[s0]
    ensures ExpectedLoad(c, counts, subjects, s, t, m + 1, s0, k)
      == ExpectedLoad(c, counts, subjects, s, t, m, s0, k)
       + if s0 == s && Mod(Position(t, subjects, m), counts[s]) == k then 1 else 0
    ensures ExpectedLoad(c, counts, subjects, s, t + 1, 0, s0, k)
      == ExpectedLoad(c, counts, subjects, s, t, subjects, s0, k)
  {
    PositionNext(t, subjects, m);
  }

  lemma LoadStep(c: Catalog, counts: seq<nat>, subjects: nat, s: nat, t: nat, m: nat, s0: nat, k: nat)
    requires ValidCatalog(c) && Counts(c, counts) && s < |c.schools| && t < |c.templates| && m < subjects
    requires s0 < |c.schools| && k < counts[s0]
    ensures var before := SeedRequirements(c, counts, subjects, s, t, m);
      var after := SeedRequirements(c, counts, subjects, s, t, m + 1);
      Load(after, |after|, TeacherSchoolId(SchoolId(c.schools[s0]), k))
      == Load(before, |before|, TeacherSchoolId(SchoolId(c.schools[s0]), k))
       + if s0 == s && Mod(Position(t, subjects, m), counts[s]) == k then 1 else 0
  {
    LoadNext(c, counts, SeedRequirements(c, counts, subjects, s, t, m), subjects, s, t, m, s0, k);
  }

  lemma {:induction false} LoadOfSeed(
    c: Catalog, counts: seq<nat>, subjects: nat, s: nat, t: nat, m: nat, s0: nat, k: nat)
    requires ValidCatalog(c) && Counts(c, counts) && SeedCursor(c, s, t)
    requires if s < |c.schools| && t < |c.templates| then m <= subjects else m == 0
    requires s0 < |c.schools| && k < counts[s0]
    ensures var rs := SeedRequirements(c, counts, subjects, s, t, m);
      Load(rs, |rs|, TeacherSchoolId(SchoolId(c.schools[s0]), k)) == ExpectedLoad(c, counts, subjects, s, t, m, s0, k)
    decreases s, t, m
  {
    if m > 0 {
      LoadOfSeed(c, counts, subjects, s, t, m - 1, s0, k);
      LoadStep(c, counts, subjects, s, t, m - 1, s0, k);
      ExpectedNext(c, counts, subjects, s, t, m - 1, s0, k);
    } else if t > 0 {
      LoadOfSeed(c, counts, subjects, s, t - 1, subjects, s0, k);
      ExpectedNext(c, counts, subjects, s, t - 1, 0, s0, k);
    } else if s > 0 {
      LoadOfSeed(c, counts, subjects, s - 1, |c.templates|, 0, s0, k);
    }
  }

  /** Round-robin: in the whole seed, teacher `k` of a school of K teachers gives
      floor((P*M + K-1-k) / K) of the school's P*M courses, so two colleagues differ by at most one. */
  lemma TeacherLoads(c: Catalog, counts: seq<nat>, roster: map<Id, seq<Id>>, subjects: nat, s: nat, k: nat, k': nat)
    requires ValidCatalog(c) && RosterFor(c, counts, roster) && s < |c.schools| && k < counts[s] && k' < counts[s]
    ensures Cursor(AllPrograms(c), subjects, roster, |AllPrograms(c)|, 0)
    ensures var rs := Requirements(AllPrograms(c), subjects, roster, |AllPrograms(c)|, 0);
      var load := Load(rs, |rs|, TeacherSchoolId(SchoolId(c.schools[s]), k));
      var load' := Load(rs, |rs|, TeacherSchoolId(SchoolId(c.schools[s]), k'));
      load == (|c.templates| * subjects + counts[s] - 1 - k) / counts[s] && load <= load' + 1
  {
    ProgramIndex(c, |c.schools|, 0, 0, 0);
    RequirementsOfSeed(c, counts, roster, subjects, |c.schools|, 0, 0);
    LoadOfSeed(c, counts, subjects, |c.schools|, 0, 0, s, k);
    LoadOfSeed(c, counts, subjects, |c.schools|, 0, 0, s, k');
    PositionIsProduct(|c.templates|, subjects, 0);
    CountResidueClosed(Position(|c.templates|, subjects, 0), counts[s], k);
    CountResiduesClose(Position(|c.templates|, subjects, 0), counts[s], k, k');
  }

  // ---------- Pools and course enrolments ----------

  /** The courses of one level of a programme of `years` years, among its first `m`. */
  function LevelCourses(program: Id, years: nat, level: nat, m: nat): seq<Id>
    requires years >= 1
  {
    if m == 0 then []
    else
      LevelCourses(program, years, level, m - 1)
      + if Mod(m - 1, years) + 1 == level then [CourseId(program, m - 1)] else []
  }

  lemma {:induction false} LevelCoursesShape(program: Id, years: nat, level: nat, m: nat)
    requires years >= 1 && level >= 1
    ensures var courses := LevelCourses(program, years, level, m);
      && |courses| == CountResidue(m, years, level - 1)
      && (forall i | 0 <= i < |courses| ::
            courses[i].CourseId? && courses[i].program == program
            && courses[i].courseIndex < m && Mod(courses[i].courseIndex, years) + 1 == level)
      && (forall i, j | 0 <= i < j < |courses| :: courses[i] != courses[j])
  {
    if m > 0 {
      LevelCoursesShape(program, years, level, m - 1);
    }
  }

  lemma PoolNext(
    c: Catalog, teachers: seq<Id>, before: seq<Requirement>, subjects: nat, s: nat, t: nat, m: nat, s0: nat,
    t0: nat, level: nat)
    requires ValidCatalog(c) && s < |c.schools| && t < |c.templates| && teachers != []
    requires s0 < |c.schools| && t0 < |c.templates|
    ensures var rs := before + [RequirementAt(ProgramAt(c, s, t), teachers, subjects, m)];
      var key := (ProgramAt(c, s0, t0).id, level);
      Pool(rs, |rs|, key) == Pool(before, |before|, key)
      + if s == s0 && t == t0 && Mod(m, c.templates[t].durationYears) + 1 == level
        then [CourseId(ProgramAt(c, s, t).id, m)] else []
  {
    PoolAppend(before, RequirementAt(ProgramAt(c, s, t), teachers, subjects, m), (ProgramAt(c, s0, t0).id, level));
    SameProgram(c, s, t, s0, t0);
  }

  lemma {:induction false} PoolOfSeed(
    c: Catalog, counts: seq<nat>, subjects: nat, s: nat, t: nat, m: nat, s0: nat, t0: nat, level: nat)
    requires ValidCatalog(c) && Counts(c, counts) && SeedCursor(c, s, t)
    requires if s < |c.schools| && t < |c.templates| then m <= subjects else m == 0
    requires s0 < |c.schools| && t0 < |c.templates|
    ensures var rs := SeedRequirements(c, counts, subjects, s, t, m);
      Pool(rs, |rs|, (ProgramAt(c, s0, t0).id, level))
      == LevelCourses(ProgramAt(c, s0, t0).id, c.templates[t0].durationYears, level,
           if s0 < s || (s0 == s && t0 < t) then subjects else if s0 == s && t0 == t then m else 0)
    decreases s, t, m
  {
    if m > 0 {
      PoolOfSeed(c, counts, subjects, s, t, m - 1, s0, t0, level);
      var before := SeedRequirements(c, counts, subjects, s, t, m - 1);
      PoolNext(c, SchoolTeachers(c, s, counts[s]), before, subjects, s, t, m - 1, s0, t0, level);
    } else if t > 0 {
      PoolOfSeed(c, counts, subjects, s, t - 1, subjects, s0, t0, level);
    } else if s > 0 {
      PoolOfSeed(c, counts, subjects, s - 1, |c.templates|, 0, s0, t0, level);
    }
  }

  /** The curriculum the seed builds, whatever its staffing. */
  ghost predicate SeedCurriculum(
    c: Catalog, counts: seq<nat>, roster: map<Id, seq<Id>>, subjects: nat, curriculum: Curriculum)
  {
    && ValidCatalog(c) && RosterFor(c, counts, roster) && Matches(curriculum)
    && curriculum.requirements == SeedRequirements(c, counts, subjects, |c.schools|, 0, 0)
  }

  /** What the loop leaves on the seed's programmes is such a curriculum. */
  lemma PlannedIsSeedCurriculum(
    c: Catalog, counts: seq<nat>, roster: map<Id, seq<Id>>, subjects: nat, curriculum: Curriculum)
    requires ValidCatalog(c) && RosterFor(c, counts, roster)
    requires Planned(AllPrograms(c), roster, subjects, |AllPrograms(c)|, 0, curriculum)
    ensures SeedCurriculum(c, counts, roster, subjects, curriculum)
  {
    ProgramIndex(c, |c.schools|, 0, 0, 0);
    RequirementsOfSeed(c, counts, roster, subjects, |c.schools|, 0, 0);
  }

  /** Level l of a programme of d years has floor((M + d - l) / d) of its M courses, and only its own. */
  lemma PoolsOfSeed(
    c: Catalog, counts: seq<nat>, roster: map<Id, seq<Id>>, subjects: nat, curriculum: Curriculum, s: nat,
    t: nat, level: nat)
    requires SeedCurriculum(c, counts, roster, subjects, curriculum)
    requires s < |c.schools| && t < |c.templates| && 1 <= level <= c.templates[t].durationYears
    ensures PoolOr(curriculum.pools, (ProgramAt(c, s, t).id, level))
      == LevelCourses(ProgramAt(c, s, t).id, c.templates[t].durationYears, level, subjects)
    ensures |PoolOr(curriculum.pools, (ProgramAt(c, s, t).id, level))|
      == (subjects + c.templates[t].durationYears - level) / c.templates[t].durationYears
  {
    PoolOfSeed(c, counts, subjects, |c.schools|, 0, 0, s, t, level);
    LevelCoursesShape(ProgramAt(c, s, t).id, c.templates[t].durationYears, level, subjects);
    CountResidueClosed(subjects, c.templates[t].durationYears, level - 1);
  }

  function Least(a: nat, b: nat): nat { if a < b then a else b }

  /** `coursePool.slice(0, 4).length` */
  function Taken(pools: map<ClassKey, seq<Id>>, key: ClassKey): nat { Least(4, |PoolOr(pools, key)|) }

  /** The (course, student) pairs of the first `i` students and the first `j` courses of the next. */
  function Enrollments(plans: seq<Plan>, pools: map<ClassKey, seq<Id>>, i: nat, j: nat): seq<(Id, Id)>
    requires i <= |plans| && if i < |plans| then j <= Taken(pools, KeyOf(plans[i])) else j == 0
    decreases i, j
  {
    if j > 0 then Enrollments(plans, pools, i, j - 1) + [(PoolOr(pools, KeyOf(plans[i]))[j - 1], plans[i].student)]
    else if i > 0 then Enrollments(plans, pools, i - 1, Taken(pools, KeyOf(plans[i - 1])))
    else []
  }

  /** The last loop of the seed: every student takes the first four courses of the level. */
  method EnrollInCourses(plans: seq<Plan>, pools: map<ClassKey, seq<Id>>) returns (courseEnrollments: seq<(Id, Id)>)
    ensures courseEnrollments == Enrollments(plans, pools, |plans|, 0)
  {
    courseEnrollments := [];
    for i := 0 to |plans|
      invariant courseEnrollments == Enrollments(plans, pools, i, 0)
    {
      var coursePool := PoolOr(pools, KeyOf(plans[i]));
      var firstFour := if |coursePool| < 4 then coursePool else coursePool[..4];
      for j := 0 to |firstFour|
        invariant |firstFour| == Taken(pools, KeyOf(plans[i]))
        invariant courseEnrollments == Enrollments(plans, pools, i, j)
      {
        courseEnrollments := courseEnrollments + [(firstFour[j], plans[i].student)];
      }
    }
  }

  predicate PlansOf(c: Catalog, plans: seq<Plan>)
    requires ValidCatalog(c)
  {
    forall i | 0 <= i < |plans| :: plans[i] == PlanOf(c, i)
  }

  lemma {:induction false} EnrollmentCount(
    c: Catalog, plans: seq<Plan>, pools: map<ClassKey, seq<Id>>, weight: ClassKey -> nat, i: nat, j: nat)
    requires ValidCatalog(c) && PlansOf(c, plans) && forall key :: weight(key) == Taken(pools, key)
    requires i <= |plans| && if i < |plans| then j <= Taken(pools, KeyOf(plans[i])) else j == 0
    ensures |Enrollments(plans, pools, i, j)| == SumPlans(c, i, weight) + j
    decreases i, j
  {
    if j > 0 {
      EnrollmentCount(c, plans, pools, weight, i, j - 1);
    } else if i > 0 {
      EnrollmentCount(c, plans, pools, weight, i - 1, Taken(pools, KeyOf(plans[i - 1])));
    }
  }

  /** Course enrolments total the sum over classes of studentCount * min(4, pool size). */
  lemma EnrollmentTotal(c: Catalog, plans: seq<Plan>, pools: map<ClassKey, seq<Id>>, classCounts: map<ClassKey, nat>)
    requires ValidCatalog(c) && PlansOf(c, plans)
    requires forall key :: CountOr0(classCounts, key) == CountKey(c, |plans|, key)
    ensures var classes := Classes(c, classCounts);
      |Enrollments(plans, pools, |plans|, 0)| == SumClasses(classes, |classes|, key => Least(4, |PoolOr(pools, key)|))
  {
    var weight: ClassKey -> nat := key => Least(4, |PoolOr(pools, key)|);
    EnrollmentCount(c, plans, pools, weight, |plans|, 0);
    Conservation(c, |plans|, classCounts, weight);
  }

  /** A pair the loop may have produced before the cursor: a student already served, enrolled
      in one of the courses of that student's own programme and level. */
  predicate Served(c: Catalog, plans: seq<Plan>, pools: map<ClassKey, seq<Id>>, i: nat, j: nat, pair: (Id, Id))
    requires ValidCatalog(c)
  {
    && pair.1.StudentId? && pair.0.CourseId?
    && pair.1.index < |plans| && pair.1.index <= i
    && var plan := plans[pair.1.index];
       && pair.0.program == plan.program.id
       && plan.program.durationYears >= 1 && Mod(pair.0.courseIndex, plan.program.durationYears) + 1 == plan.level
       && (pair.1.index == i ==>
             exists x | 0 <= x < j && x < |PoolOr(pools, KeyOf(plan))| :: PoolOr(pools, KeyOf(plan))[x] == pair.0)
  }

  predicate GoodPool(plan: Plan, pool: seq<Id>) {
    && plan.program.durationYears >= 1
    && (forall x | 0 <= x < |pool| :: pool[x].CourseId? && pool[x].program == plan.program.id
          && Mod(pool[x].courseIndex, plan.program.durationYears) + 1 == plan.level)
    && (forall x, y | 0 <= x < y < |pool| :: pool[x] != pool[y])
  }

  lemma PlanPoolIsGood(
    c: Catalog, counts: seq<nat>, roster: map<Id, seq<Id>>, subjects: nat, curriculum: Curriculum, index: nat)
    requires SeedCurriculum(c, counts, roster, subjects, curriculum)
    ensures GoodPool(PlanOf(c, index), PoolOr(curriculum.pools, KeyOf(PlanOf(c, index))))
  {
    var plan := PlanOf(c, index);
    ModBound(index, |c.schools|);
    ModBound(Div(index, |c.schools|), |c.templates|);
    ModBound(Div(Div(index, |c.schools|), |c.templates|), plan.program.durationYears);
    var p := plan.program;
    PoolsOfSeed(c, counts, roster, subjects, curriculum, p.schoolIndex, p.templateIndex, plan.level);
    LevelCoursesShape(plan.program.id, plan.program.durationYears, plan.level, subjects);
  }

  predicate NoRepeat(pairs: seq<(Id, Id)>) {
    forall a, b | 0 <= a < b < |pairs| :: pairs[a] != pairs[b]
  }

  ghost predicate AllServed(
    c: Catalog, plans: seq<Plan>, pools: map<ClassKey, seq<Id>>, i: nat, j: nat, pairs: seq<(Id, Id)>)
    requires ValidCatalog(c)
  {
    NoRepeat(pairs) && forall a | 0 <= a < |pairs| :: Served(c, plans, pools, i, j, pairs[a])
  }

  lemma {:induction false} EnrollmentsServed(
    c: Catalog, plans: seq<Plan>, pools: map<ClassKey, seq<Id>>, i: nat, j: nat)
    requires ValidCatalog(c) && PlansOf(c, plans)
    requires forall x | 0 <= x < |plans| :: GoodPool(plans[x], PoolOr(pools, KeyOf(plans[x])))
    requires i <= |plans| && if i < |plans| then j <= Taken(pools, KeyOf(plans[i])) else j == 0
    ensures AllServed(c, plans, pools, i, j, Enrollments(plans, pools, i, j))
    decreases i, j
  {
    if j > 0 {
      EnrollmentsServed(c, plans, pools, i, j - 1);
      NewPairIsFresh(c, plans, pools, i, j);
      var pair := (PoolOr(pools, KeyOf(plans[i]))[j - 1], plans[i].student);
      AppendServed(c, plans, pools, i, j, Enrollments(plans, pools, i, j - 1), pair);
    } else if i > 0 {
      EnrollmentsServed(c, plans, pools, i - 1, Taken(pools, KeyOf(plans[i - 1])));
      NextStudentServed(c, plans, pools, i, Taken(pools, KeyOf(plans[i - 1])), Enrollments(plans, pools, i, 0));
    }
  }

  lemma AppendServed(
    c: Catalog, plans: seq<Plan>, pools: map<ClassKey, seq<Id>>, i: nat, j: nat, pairs: seq<(Id, Id)>,
    pair: (Id, Id))
    requires ValidCatalog(c) && j > 0 && AllServed(c, plans, pools, i, j - 1, pairs)
    requires Served(c, plans, pools, i, j, pair) && !Served(c, plans, pools, i, j - 1, pair)
    ensures AllServed(c, plans, pools, i, j, pairs + [pair])
  {
    var after := pairs + [pair];
    forall a | 0 <= a < |after| ensures Served(c, plans, pools, i, j, after[a]) {
      if a < |pairs| {
        assert Served(c, plans, pools, i, j - 1, pairs[a]);
      }
    }
  }

  lemma NextStudentServed(
    c: Catalog, plans: seq<Plan>, pools: map<ClassKey, seq<Id>>, i: nat, j: nat, pairs: seq<(Id, Id)>)
    requires ValidCatalog(c) && i > 0 && AllServed(c, plans, pools, i - 1, j, pairs)
    ensures AllServed(c, plans, pools, i, 0, pairs)
  {
    forall a | 0 <= a < |pairs| ensures Served(c, plans, pools, i, 0, pairs[a]) {
      assert Served(c, plans, pools, i - 1, j, pairs[a]);
    }
  }

  lemma NewPairIsFresh(c: Catalog, plans: seq<Plan>, pools: map<ClassKey, seq<Id>>, i: nat, j: nat)
    requires ValidCatalog(c) && PlansOf(c, plans)
    requires i < |plans| && 0 < j <= Taken(pools, KeyOf(plans[i]))
    requires GoodPool(plans[i], PoolOr(pools, KeyOf(plans[i])))
    ensures Served(c, plans, pools, i, j, (PoolOr(pools, KeyOf(plans[i]))[j - 1], plans[i].student))
    ensures !Served(c, plans, pools, i, j - 1, (PoolOr(pools, KeyOf(plans[i]))[j - 1], plans[i].student))
  {}

  /** No (course, student) pair is produced twice, and every enrolled course belongs to the
      student's programme and level. */
  lemma {:induction false} EnrollmentsAreSound(
    c: Catalog, counts: seq<nat>, roster: map<Id, seq<Id>>, subjects: nat, curriculum: Curriculum,
    plans: seq<Plan>)
    requires SeedCurriculum(c, counts, roster, subjects, curriculum) && PlansOf(c, plans)
    ensures var pairs := Enrollments(plans, curriculum.pools, |plans|, 0);
      AllServed(c, plans, curriculum.pools, |plans|, 0, pairs)
  {
    forall x | 0 <= x < |plans| ensures GoodPool(plans[x], PoolOr(curriculum.pools, KeyOf(plans[x]))) {
      PlanPoolIsGood(c, counts, roster, subjects, curriculum, x);
    }
    EnrollmentsServed(c, plans, curriculum.pools, |plans|, 0);
  }

  /** The number of pairs of the first `i` students, four or the whole pool for each. */
  function PairsBefore(plans: seq<Plan>, pools: map<ClassKey, seq<Id>>, i: nat): nat
    requires i <= |plans|
  {
    if i == 0 then 0 else PairsBefore(plans, pools, i - 1) + Least(4, |PoolOr(pools, KeyOf(plans[i - 1]))|)
  }

  lemma {:induction false} EnrollmentsLength(plans: seq<Plan>, pools: map<ClassKey, seq<Id>>, i: nat, j: nat)
    requires i <= |plans| && if i < |plans| then j <= Taken(pools, KeyOf(plans[i])) else j == 0
    ensures |Enrollments(plans, pools, i, j)| == PairsBefore(plans, pools, i) + j
    decreases i, j
  {
    if j > 0 {
      EnrollmentsLength(plans, pools, i, j - 1);
    } else if i > 0 {
      EnrollmentsLength(plans, pools, i - 1, Taken(pools, KeyOf(plans[i - 1])));
    }
  }

  lemma {:induction false} EnrollmentsAt(
    plans: seq<Plan>, pools: map<ClassKey, seq<Id>>, i: nat, j: nat, i0: nat, x: nat)
    requires i <= |plans| && if i < |plans| then j <= Taken(pools, KeyOf(plans[i])) else j == 0
    requires i0 < |plans| && x < Taken(pools, KeyOf(plans[i0])) && (i0 < i || (i0 == i && x < j))
    ensures PairsBefore(plans, pools, i0) + x < |Enrollments(plans, pools, i, j)|
    ensures Enrollments(plans, pools, i, j)[PairsBefore(plans, pools, i0) + x]
      == (PoolOr(pools, KeyOf(plans[i0]))[x], plans[i0].student)
    decreases i, j
  {
    if j > 0 {
      EnrollmentsLength(plans, pools, i, j - 1);
      if i0 < i || x < j - 1 {
        EnrollmentsAt(plans, pools, i, j - 1, i0, x);
      }
    } else {
      EnrollmentsAt(plans, pools, i - 1, Taken(pools, KeyOf(plans[i - 1])), i0, x);
    }
  }

  /** The enrolments, pair by pair: after those of the students before, student `i` is enrolled in
      the first four courses of the pool of the student's level, in order, or in all if fewer. */
  lemma FirstFourInOrder(plans: seq<Plan>, pools: map<ClassKey, seq<Id>>)
    ensures |Enrollments(plans, pools, |plans|, 0)| == PairsBefore(plans, pools, |plans|)
    ensures forall i: nat, x: nat |
        i < |plans| && x < 4 && x < |PoolOr(pools, (plans[i].program.id, plans[i].level))| ::
      && PairsBefore(plans, pools, i) + x < |Enrollments(plans, pools, |plans|, 0)|
      && Enrollments(plans, pools, |plans|, 0)[PairsBefore(plans, pools, i) + x]
         == (PoolOr(pools, (plans[i].program.id, plans[i].level))[x], plans[i].student)
  {
    EnrollmentsLength(plans, pools, |plans|, 0);
    forall i: nat, x: nat | i < |plans| && x < 4 && x < |PoolOr(pools, (plans[i].program.id, plans[i].level))|
      ensures PairsBefore(plans, pools, i) + x < |Enrollments(plans, pools, |plans|, 0)|
      ensures Enrollments(plans, pools, |plans|, 0)[PairsBefore(plans, pools, i) + x]
           == (PoolOr(pools, (plans[i].program.id, plans[i].level))[x], plans[i].student)
    {
      EnrollmentsAt(plans, pools, |plans|, 0, i, x);
    }
  }

  // ---------- The requirements, one by one ----------

  lemma {:induction false} RequirementsLength(
    programs: seq<Program>, subjects: nat, roster: map<Id, seq<Id>>, p: nat, m: nat)
    requires Cursor(programs, subjects, roster, p, m)
    ensures |Requirements(programs, subjects, roster, p, m)| == Position(p, subjects, m)
    decreases p, m
  {
    if m > 0 {
      RequirementsLength(programs, subjects, roster, p, m - 1);
      PositionNext(p, subjects, m - 1);
    } else if p > 0 {
      RequirementsLength(programs, subjects, roster, p - 1, subjects);
      PositionNext(p - 1, subjects, 0);
    }
  }

  lemma {:induction false} RequirementPlace(
    programs: seq<Program>, subjects: nat, roster: map<Id, seq<Id>>, p: nat, m: nat, p0: nat, i: nat)
    requires Cursor(programs, subjects, roster, p, m) && i < subjects && (p0 < p || (p0 == p && i < m))
    ensures HasTeachers(programs[p0], roster)
    ensures Position(p0, subjects, i) < |Requirements(programs, subjects, roster, p, m)|
    ensures Requirements(programs, subjects, roster, p, m)[Position(p0, subjects, i)]
      == RequirementAt(programs[p0], roster[programs[p0].id.school], subjects, i)
    decreases p, m
  {
    if m > 0 {
      RequirementsLength(programs, subjects, roster, p, m - 1);
      PositionNext(p, subjects, m - 1);
      if p0 < p || i < m - 1 {
        RequirementPlace(programs, subjects, roster, p, m - 1, p0, i);
      }
    } else {
      RequirementPlace(programs, subjects, roster, p - 1, subjects, p0, i);
    }
  }

  /** The plan, requirement by requirement: course `i` of programme `p` stands at place
      `p * subjects + i`, at level `i % years + 1`, for subject `i` of the programme's school, with
      the teacher of that school whose turn it is. */
  lemma RequirementsInOrder(
    programs: seq<Program>, roster: map<Id, seq<Id>>, subjects: nat, curriculum: Curriculum, p: nat, i: nat)
    requires Planned(programs, roster, subjects, |programs|, 0, curriculum) && p < |programs| && i < subjects
    ensures |curriculum.requirements| == |programs| * subjects && p * subjects + i < |programs| * subjects
    ensures HasTeachers(programs[p], roster) && programs[p].durationYears > 0
    ensures var program, teachers := programs[p], roster[programs[p].id.school];
      curriculum.requirements[p * subjects + i] == Requirement(
        program.id, i, i % program.durationYears + 1, SubjectId(program.id.school, i),
        teachers[(program.templateIndex * subjects + i) % |teachers|])
  {
    RequirementsLength(programs, subjects, roster, |programs|, 0);
    RequirementPlace(programs, subjects, roster, |programs|, 0, p, i);
    PositionIsProduct(|programs|, subjects, 0);
    PositionIsProduct(p, subjects, i);
    InTurn(programs[p], roster[programs[p].id.school], subjects, i);
  }
}
