/** What the enrolment backfill writes, field by field: the row of a student and a school after a
    run, in terms of the applications, programmes and years it found. */
module BackfillRows {
  import opened Backfill
  import opened Wrappers
  import Text

  /** Application `j` is the last of this student for an offer of this school. */
  predicate LastFor(apps: seq<Application>, j: nat, student: string, school: string) {
    && j < |apps| && apps[j].studentId == student && apps[j].offer.schoolId == school
    && forall m | j < m < |apps| :: !(apps[m].studentId == student && apps[m].offer.schoolId == school)
  }

  /** The application names a programme, the school has it, and the school has a current year. */
  predicate Rebuildable(a: Application, school: string, programs: seq<Program>, years: seq<Year>) {
    && a.offer.programId.Some? && a.offer.programId.value != ""
    && (exists p | p in programs :: p.id == a.offer.programId.value && p.schoolId == school)
    && (exists y | y in years :: y.schoolId == school && y.isCurrent)
  }

  /** A first-year, active enrolment in that programme and a current year, with the label of both. */
  predicate Rebuilt(row: Enrollment, a: Application, school: string, programs: seq<Program>, years: seq<Year>) {
    exists p, y | p in programs && y in years ::
      && Some(p.id) == a.offer.programId && p.schoolId == school
      && y.schoolId == school && y.isCurrent
      && row.programId == p.id && row.programLevel == 1 && row.academicYearId == y.id
      && row.enrolledYear == "Année 1 · " + p.name + " · " + y.yearLabel
      && row.status == "ACTIVE"
  }

  predicate SameRow(before: Rows, after: Rows, pair: Pair) {
    (pair in after <==> pair in before) && (pair in before ==> after[pair] == before[pair])
  }

  lemma LabelOfFirstYear(programName: string, yearLabel: string)
    ensures EnrollmentLabel(programName, 1, yearLabel) == "Année 1 · " + programName + " · " + yearLabel
  {
    assert Text.Decimal(1) == "1";
    assert "Année " + "1" + " · " == "Année 1 · ";
  }

  lemma OutcomeRebuilds(a: Application, programs: seq<Program>, years: seq<Year>, year: Option<Year>)
    requires ValidYear(year, PairOf(a), years)
    ensures RowFor(a, programs, year).Some? <==> Rebuildable(a, a.offer.schoolId, programs, years)
    ensures RowFor(a, programs, year).Some? ==>
      Rebuilt(RowFor(a, programs, year).value, a, a.offer.schoolId, programs, years)
  {
    if a.offer.programId.Some? && a.offer.programId.value != "" {
      FoundProgram(programs, 0, a.offer.programId.value, a.offer.schoolId);
      var found := FindProgram(programs, 0, a.offer.programId.value, a.offer.schoolId);
      if found.Some? && year.Some? {
        LabelOfFirstYear(found.value.name, year.value.yearLabel);
        assert found.value in programs && year.value in years;
      }
    }
  }

  /** After a run, a student with a last application for a school has a rebuilt row there if that
      application can be rebuilt, and otherwise the row it had. Without application it keeps it. */
  lemma RowAfterRun(
    before: Rows, after: Rows, apps: seq<Application>, programs: seq<Program>, years: seq<Year>, pick: YearPick,
    student: string, school: string)
    requires ColonFree(apps) && ValidPick(pick, years)
    requires Backfilled(before, after, Latest(apps, |apps|), programs, pick)
    ensures forall j: nat | LastFor(apps, j, student, school) ::
      if Rebuildable(apps[j], school, programs, years)
      then (student, school) in after && Rebuilt(after[(student, school)], apps[j], school, programs, years)
      else SameRow(before, after, (student, school))
    ensures (forall a | a in apps :: !(a.studentId == student && a.offer.schoolId == school)) ==>
      SameRow(before, after, (student, school))
  {
    var pair := (student, school);
    LastApplicationDecides(before, after, apps, programs, pick, pair);
    forall j: nat | LastFor(apps, j, student, school)
      ensures if Rebuildable(apps[j], school, programs, years)
              then pair in after && Rebuilt(after[pair], apps[j], school, programs, years)
              else SameRow(before, after, pair)
    {
      assert IsLastOf(apps, j, pair);
      OutcomeRebuilds(apps[j], programs, years, pick(pair));
    }
    if forall a | a in apps :: !(a.studentId == student && a.offer.schoolId == school) {
      forall i | 0 <= i < |apps| ensures PairOf(apps[i]) != pair {
        assert apps[i] in apps;
      }
    }
  }

  /** The entries counted as created are those whose last application can be rebuilt. */
  lemma CreatedAreRebuildable(latest: map<Key, Application>, programs: seq<Program>, years: seq<Year>, pick: YearPick)
    requires ValidPick(pick, years)
    ensures Resolvable(latest, programs, pick)
      == set key | key in latest && Rebuildable(latest[key], latest[key].offer.schoolId, programs, years)
  {
    forall key | key in latest
      ensures key in Resolvable(latest, programs, pick)
        <==> Rebuildable(latest[key], latest[key].offer.schoolId, programs, years)
    {
      OutcomeRebuilds(latest[key], programs, years, pick(PairOf(latest[key])));
    }
  }
}
