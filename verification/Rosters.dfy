/** The national seed's teachers: the list it builds school by school, and its grouping. */
module Rosters {
  import opened Population
  import opened Teaching

  datatype Teacher = Teacher(school: Id, teacherSchool: Id)

  function TeacherAt(c: Catalog, s: nat, k: nat): Teacher
    requires s < |c.schools|
  {
    Teacher(SchoolId(c.schools[s]), TeacherSchoolId(SchoolId(c.schools[s]), k))
  }

  predicate TeacherCursor(c: Catalog, counts: seq<nat>, s: nat, k: nat) {
    |counts| == |c.schools| && s <= |counts| && (if s < |counts| then k <= counts[s] else k == 0)
  }

  /** All teachers of the first `s` schools, and the first `k` of the next. */
  function TeacherList(c: Catalog, counts: seq<nat>, s: nat, k: nat): seq<Teacher>
    requires TeacherCursor(c, counts, s, k)
    decreases s, k
  {
    if k > 0 then TeacherList(c, counts, s, k - 1) + [TeacherAt(c, s, k - 1)]
    else if s > 0 then TeacherList(c, counts, s - 1, counts[s - 1])
    else []
  }

  method ListTeachers(c: Catalog, counts: seq<nat>) returns (teachers: seq<Teacher>)
    requires |counts| == |c.schools|
    ensures teachers == TeacherList(c, counts, |c.schools|, 0)
  {
    teachers := [];
    for s := 0 to |c.schools|
      invariant teachers == TeacherList(c, counts, s, 0)
    {
      for k := 0 to counts[s]
        invariant teachers == TeacherList(c, counts, s, k)
      {
        teachers := teachers + [TeacherAt(c, s, k)];
      }
    }
  }

  /** The teachers of a school among the first `n`, in order. */
  function TeachersOf(teachers: seq<Teacher>, n: nat, school: Id): seq<Id>
    requires n <= |teachers|
  {
    if n == 0 then []
    else
      TeachersOf(teachers, n - 1, school)
      + if teachers[n - 1].school == school then [teachers[n - 1].teacherSchool] else []
  }

  function TeachersOr(roster: map<Id, seq<Id>>, school: Id): seq<Id> {
    if school in roster then roster[school] else []
  }

  /** The roster groups the first `n` teachers: everyone under the right school, in order. */
  ghost predicate Groups(roster: map<Id, seq<Id>>, teachers: seq<Teacher>, n: nat)
    requires n <= |teachers|
  {
    && (forall school :: TeachersOr(roster, school) == TeachersOf(teachers, n, school))
    && (forall school | school in roster :: roster[school] != [])
  }

  function AddTeacher(roster: map<Id, seq<Id>>, teacher: Teacher): map<Id, seq<Id>> {
    roster[teacher.school := TeachersOr(roster, teacher.school) + [teacher.teacherSchool]]
  }

  lemma AddTeacherGroups(roster: map<Id, seq<Id>>, teachers: seq<Teacher>, n: nat)
    requires n < |teachers| && Groups(roster, teachers, n)
    ensures Groups(AddTeacher(roster, teachers[n]), teachers, n + 1)
  {
    var after := AddTeacher(roster, teachers[n]);
    forall school ensures TeachersOr(after, school) == TeachersOf(teachers, n + 1, school) {
      assert TeachersOr(roster, school) == TeachersOf(teachers, n, school);
    }
  }

  method TeachersBySchool(teachers: seq<Teacher>) returns (roster: map<Id, seq<Id>>)
    ensures Groups(roster, teachers, |teachers|)
  {
    roster := map[];
    for n := 0 to |teachers|
      invariant Groups(roster, teachers, n)
    {
      AddTeacherGroups(roster, teachers, n);
      var schoolTeachers := TeachersOr(roster, teachers[n].school) + [teachers[n].teacherSchool];
      roster := roster[teachers[n].school := schoolTeachers];
    }
  }

  lemma {:induction false} TeachersPrefix(teachers: seq<Teacher>, last: Teacher, n: nat, school: Id)
    requires n <= |teachers|
    ensures TeachersOf(teachers + [last], n, school) == TeachersOf(teachers, n, school)
  {
    if n > 0 {
      TeachersPrefix(teachers, last, n - 1, school);
    }
  }

  lemma {:induction false} ListedTeachers(c: Catalog, counts: seq<nat>, s: nat, k: nat, s0: nat)
    requires ValidCatalog(c) && TeacherCursor(c, counts, s, k) && s0 < |c.schools|
    ensures var teachers := TeacherList(c, counts, s, k);
      TeachersOf(teachers, |teachers|, SchoolId(c.schools[s0]))
      == SchoolTeachers(c, s0, if s0 < s then counts[s0] else if s0 == s then k else 0)
    decreases s, k
  {
    if k > 0 {
      ListedTeachers(c, counts, s, k - 1, s0);
      var before := TeacherList(c, counts, s, k - 1);
      TeachersPrefix(before, TeacherAt(c, s, k - 1), |before|, SchoolId(c.schools[s0]));
      SchoolTeachersNext(c, s, k - 1);
    } else if s > 0 {
      ListedTeachers(c, counts, s - 1, counts[s - 1], s0);
    }
  }

  lemma SchoolTeachersNext(c: Catalog, s: nat, k: nat)
    requires s < |c.schools|
    ensures SchoolTeachers(c, s, k + 1) == SchoolTeachers(c, s, k) + [TeacherSchoolId(SchoolId(c.schools[s]), k)]
  {}

  /** Grouping the list the seed builds gives the roster on which its courses are planned. */
  lemma SeedRoster(c: Catalog, counts: seq<nat>, roster: map<Id, seq<Id>>)
    requires ValidCatalog(c) && Counts(c, counts)
    requires var teachers := TeacherList(c, counts, |c.schools|, 0); Groups(roster, teachers, |teachers|)
    ensures RosterFor(c, counts, roster)
  {
    forall s | 0 <= s < |c.schools|
      ensures SchoolId(c.schools[s]) in roster && roster[SchoolId(c.schools[s])] == SchoolTeachers(c, s, counts[s])
    {
      ListedTeachers(c, counts, |c.schools|, 0, s);
      assert |TeachersOr(roster, SchoolId(c.schools[s]))| == counts[s];
    }
  }
}
