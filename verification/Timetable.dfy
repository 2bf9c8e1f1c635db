/** The demo seed's weekly timetable: each course takes the first cell of a five-day,
    four-block grid in which its teacher is free, probing from a start set by its index. */
module Timetable {
  import Text

  datatype Booking = Booking(day: int, start: int, end: int)
  datatype Block = Block(start: string, end: string)
  datatype Cell = Cell(day: int, block: nat)

  const TIME_BLOCKS: seq<Block> := [
    Block("08:00", "10:00"), Block("10:00", "12:00"), Block("13:00", "15:00"), Block("15:00", "17:00")
  ]

  /** Times are two digits, a colon and two digits. */
  predicate IsClock(time: string) {
    && |time| == 5 && time[2] == ':'
    && Text.IsDigit(time[0]) && Text.IsDigit(time[1]) && Text.IsDigit(time[3]) && Text.IsDigit(time[4])
  }

  lemma ClockPieces(time: string)
    requires IsClock(time)
    ensures Text.Split(time, ':') == [time[..2], time[3..]]
  {
    assert time == time[..2] + [':'] + time[3..];
    Text.SplitFirst(time[..2], ':', time[3..]);
    Text.SplitOne(time[3..], ':');
  }

  function ToMinutes(time: string): int
    requires IsClock(time)
  {
    ClockPieces(time);
    var pieces := Text.Split(time, ':');
    Text.DigitsValue(pieces[0]) * 60 + Text.DigitsValue(pieces[1])
  }

  function TwoDigits(n: nat): string
    requires n < 100
  {
    [Text.Digit(n / 10), Text.Digit(n % 10)]
  }

  function DigitOf(c: char): nat
    requires Text.IsDigit(c)
  {
    c as int - '0' as int
  }

  lemma TwoDigitsValue(s: string)
    requires |s| == 2 && Text.IsDigit(s[0]) && Text.IsDigit(s[1])
    ensures Text.DigitsValue(s) == 10 * DigitOf(s[0]) + DigitOf(s[1])
  {
    var t := s[..1];
    assert Text.DigitsValue(t[..0]) == 0;
    assert Text.DigitsValue(t) == DigitOf(t[0]);
  }

  lemma ClockMinutes(time: string)
    requires IsClock(time)
    ensures ToMinutes(time)
      == 600 * DigitOf(time[0]) + 60 * DigitOf(time[1]) + 10 * DigitOf(time[3]) + DigitOf(time[4])
  {
    ClockPieces(time);
    TwoDigitsValue(time[..2]);
    TwoDigitsValue(time[3..]);
  }

  /** Reading a padded clock time gives its minute of the day. */
  lemma ToMinutesOfClock(h: nat, m: nat)
    requires h < 100 && m < 100
    ensures var time := TwoDigits(h) + ":" + TwoDigits(m);
      IsClock(time) && ToMinutes(time) == 60 * h + m
  {
    ClockMinutes(TwoDigits(h) + ":" + TwoDigits(m));
  }

  function Slot(day: int, start: string, end: string): Booking
    requires IsClock(start) && IsClock(end)
  {
    Booking(day, ToMinutes(start), ToMinutes(end))
  }

  predicate Overlap(a: Booking, b: Booking) {
    a.day == b.day && a.start < b.end && b.start < a.end
  }

  predicate Conflicts(bookings: seq<Booking>, range: Booking) {
    exists i :: 0 <= i < |bookings| && Overlap(bookings[i], range)
  }

  predicate Disjoint(bookings: seq<Booking>) {
    forall i, j | 0 <= i < j < |bookings| :: !Overlap(bookings[i], bookings[j])
  }

  // ---------- The grid ----------

  predicate InGrid(c: Cell) { 1 <= c.day <= 5 && c.block < 4 }

  function BlockStart(b: nat): int
    requires b < 4
  {
    if b == 0 then 480 else if b == 1 then 600 else if b == 2 then 780 else 900
  }

  lemma BlockMinutes(b: nat)
    requires b < 4
    ensures IsClock(TIME_BLOCKS[b].start) && ToMinutes(TIME_BLOCKS[b].start) == BlockStart(b)
    ensures IsClock(TIME_BLOCKS[b].end) && ToMinutes(TIME_BLOCKS[b].end) == BlockStart(b) + 120
  {
    ClockMinutes(TIME_BLOCKS[b].start);
    ClockMinutes(TIME_BLOCKS[b].end);
  }

  /** The booking made by placing a course in a cell. */
  function CellBooking(c: Cell): Booking
    requires c.block < 4
  {
    Booking(c.day, BlockStart(c.block), BlockStart(c.block) + 120)
  }

  /** The four cells of a day are the two-hour blocks from 8 to 12 and from 13 to 17. */
  lemma BlocksOfADay(day: int)
    ensures CellBooking(Cell(day, 0)) == Booking(day, 8 * 60, 10 * 60)
    ensures CellBooking(Cell(day, 1)) == Booking(day, 10 * 60, 12 * 60)
    ensures CellBooking(Cell(day, 2)) == Booking(day, 13 * 60, 15 * 60)
    ensures CellBooking(Cell(day, 3)) == Booking(day, 15 * 60, 17 * 60)
  {}

  lemma CellsOverlapOnlyThemselves(a: Cell, b: Cell)
    requires InGrid(a) && InGrid(b)
    ensures Overlap(CellBooking(a), CellBooking(b)) <==> a == b
  {}

  function Grid(): set<Cell> { set d: int, b: nat | 1 <= d <= 5 && b < 4 :: Cell(d, b) }

  /** Cells in which a teacher with these bookings is not free. */
  function Blocked(bookings: seq<Booking>): set<Cell> {
    set c | c in Grid() && Conflicts(bookings, CellBooking(c))
  }

  /** `(x + y) % n`, for `x` below `n` and `y` at most `n`. */
  function Around(x: nat, y: nat, n: nat): nat
    requires x < n && y <= n
  {
    if x + y < n then x + y else x + y - n
  }

  /** The cell tried after `k` failed attempts by the course of index `i`. */
  function Probe(i: nat, k: nat): (c: Cell)
    requires k <= 20
    ensures InGrid(c)
  {
    Cell(Around(i % 5, k / 4, 5) + 1, Around(i % 4, k % 4, 4))
  }

  function Back(x: nat, y: nat, n: nat): nat
    requires x < n && y < n
  {
    if x >= y then x - y else x + n - y
  }

  /** The attempt, below twenty, at which a cell is tried. */
  function AttemptFor(i: nat, c: Cell): nat
    requires InGrid(c)
  {
    4 * Back(c.day - 1, i % 5, 5) + Back(c.block, i % 4, 4)
  }

  lemma ProbeOfAttempt(i: nat, c: Cell)
    requires InGrid(c)
    ensures AttemptFor(i, c) < 20 && Probe(i, AttemptFor(i, c)) == c
  {
    var k := AttemptFor(i, c);
    assert k / 4 == Back(c.day - 1, i % 5, 5);
    assert k % 4 == Back(c.block, i % 4, 4);
  }

  lemma AttemptOfProbe(i: nat, k: nat)
    requires k < 20
    ensures AttemptFor(i, Probe(i, k)) == k
  {
    assert k == 4 * (k / 4) + k % 4;
  }

  /** The twenty first attempts visit every cell exactly once (`AttemptFor` is the inverse of
      the probe), and the next attempt is back at the start. */
  lemma ProbeVisitsEachCellOnce(i: nat)
    ensures forall c | InGrid(c) :: AttemptFor(i, c) < 20 && Probe(i, AttemptFor(i, c)) == c
    ensures forall k: nat | k < 20 :: AttemptFor(i, Probe(i, k)) == k
    ensures Probe(i, 20) == Probe(i, 0)
  {
    forall c | InGrid(c) ensures AttemptFor(i, c) < 20 && Probe(i, AttemptFor(i, c)) == c {
      ProbeOfAttempt(i, c);
    }
    forall k: nat | k < 20 ensures AttemptFor(i, Probe(i, k)) == k {
      AttemptOfProbe(i, k);
    }
  }

  /** The closed form is what the loop computes: block `(i + k) % 4`, and the next day
      exactly when the block comes back to the first one. */
  lemma NextProbe(i: nat, k: nat)
    requires 1 <= k <= 20
    ensures Probe(i, k).block == (i + k) % 4
    ensures Probe(i, k).day
      == if (i + k) % 4 == i % 4 then Probe(i, k - 1).day % 5 + 1 else Probe(i, k - 1).day
  {
    var q, r := k / 4, k % 4;
    assert i + k == 4 * (i / 4 + q) + (i % 4 + r);
    assert (i + k) % 4 == Around(i % 4, r, 4);
    assert (k - 1) / 4 == if r == 0 then q - 1 else q;
  }

  /** The loop's choice from attempt `k` on. */
  function ChooseFrom(bookings: seq<Booking>, i: nat, k: nat): (c: Cell)
    requires k <= 20
    ensures InGrid(c)
    decreases 20 - k
  {
    if k < 20 && Conflicts(bookings, CellBooking(Probe(i, k))) then ChooseFrom(bookings, i, k + 1)
    else Probe(i, k)
  }

  function Choose(bookings: seq<Booking>, i: nat): (c: Cell)
    ensures InGrid(c)
  {
    ChooseFrom(bookings, i, 0)
  }

  lemma {:induction false} ChooseFromIsFirst(bookings: seq<Booking>, i: nat, k: nat) returns (stop: nat)
    requires k <= 20
    requires forall j: nat :: j < k <= 20 ==> Conflicts(bookings, CellBooking(Probe(i, j)))
    ensures k <= stop <= 20 && ChooseFrom(bookings, i, k) == Probe(i, stop)
    ensures stop < 20 ==> !Conflicts(bookings, CellBooking(Probe(i, stop)))
    ensures forall j: nat :: j < stop <= 20 ==> Conflicts(bookings, CellBooking(Probe(i, j)))
    decreases 20 - k
  {
    if k < 20 && Conflicts(bookings, CellBooking(Probe(i, k))) {
      stop := ChooseFromIsFirst(bookings, i, k + 1);
    } else {
      stop := k;
    }
  }

  /** The choice is the first free cell in probe order whenever some cell is free; otherwise
      all twenty attempts fail and it is the start of the probe. */
  lemma ChooseFindsFirstFree(bookings: seq<Booking>, i: nat) returns (stop: nat)
    ensures stop <= 20 && Choose(bookings, i) == Probe(i, stop)
    ensures forall j: nat :: j < stop <= 20 ==> Probe(i, j) in Blocked(bookings)
    ensures stop < 20 <==> exists c :: InGrid(c) && c !in Blocked(bookings)
    ensures stop < 20 <==> Choose(bookings, i) !in Blocked(bookings)
  {
    stop := ChooseFromIsFirst(bookings, i, 0);
    if stop < 20 {
      assert InGrid(Probe(i, stop)) && Probe(i, stop) !in Blocked(bookings);
    } else {
      ProbeVisitsEachCellOnce(i);
      AllBlocked(bookings, i);
    }
  }

  lemma AllBlocked(bookings: seq<Booking>, i: nat)
    requires forall j: nat :: j < 20 ==> Conflicts(bookings, CellBooking(Probe(i, j)))
    ensures forall c | InGrid(c) :: c in Blocked(bookings)
  {
    forall c | InGrid(c) ensures c in Blocked(bookings) {
      ProbeOfAttempt(i, c);
      assert Conflicts(bookings, CellBooking(Probe(i, AttemptFor(i, c))));
    }
  }

  // ---------- The whole run ----------

  type Bookings = map<string, seq<Booking>>

  /** `teacherBookings.get(teacherId) ?? []` */
  function Of(bookings: Bookings, teacherId: string): seq<Booking> {
    if teacherId in bookings then bookings[teacherId] else []
  }

  function Book(bookings: Bookings, teacherId: string, booking: Booking): Bookings {
    bookings[teacherId := Of(bookings, teacherId) + [booking]]
  }

  /** The bookings after placing the first `n` courses, given the teacher of each. */
  function PlaceFirst(bookings: Bookings, teacherIds: seq<string>, n: nat): Bookings
    requires n <= |teacherIds|
  {
    if n == 0 then bookings
    else
      var before := PlaceFirst(bookings, teacherIds, n - 1);
      var teacherId := teacherIds[n - 1];
      Book(before, teacherId, CellBooking(Choose(Of(before, teacherId), n - 1)))
  }

  /** How many of the first `n` courses a teacher gives. */
  function CoursesOf(teacherIds: seq<string>, teacherId: string, n: nat): nat
    requires n <= |teacherIds|
  {
    if n == 0 then 0
    else CoursesOf(teacherIds, teacherId, n - 1) + if teacherIds[n - 1] == teacherId then 1 else 0
  }

  function Probed(n: nat): set<Cell>
    requires n <= 20
  {
    set k | 0 <= k < n :: Probe(0, k)
  }

  lemma ProbeFresh(n: nat)
    requires n < 20
    ensures Probe(0, n) !in Probed(n)
  {
    AttemptOfProbe(0, n);
    forall k | 0 <= k < n ensures Probe(0, k) != Probe(0, n) {
      AttemptOfProbe(0, k);
    }
  }

  lemma {:induction false} ProbedSize(n: nat)
    requires n <= 20
    ensures |Probed(n)| == n
  {
    if n > 0 {
      ProbedSize(n - 1);
      ProbeFresh(n - 1);
      assert Probed(n) == Probed(n - 1) + {Probe(0, n - 1)};
    }
  }

  lemma GridHasTwentyCells()
    ensures |Grid()| == 20
  {
    forall c | c in Grid() ensures c in Probed(20) {
      ProbeOfAttempt(0, c);
    }
    assert Grid() == Probed(20);
    ProbedSize(20);
  }

  lemma SubsetSize<T>(a: set<T>, b: set<T>)
    requires a <= b
    ensures |a| <= |b| && (|a| == |b| <==> a == b)
  {
    assert b == a + (b - a);
  }

  lemma BlockedAtMostTwenty(bookings: seq<Booking>)
    ensures |Blocked(bookings)| <= 20
    ensures |Blocked(bookings)| < 20 <==> exists c :: InGrid(c) && c !in Blocked(bookings)
  {
    GridHasTwentyCells();
    SubsetSize(Blocked(bookings), Grid());
    if |Blocked(bookings)| < 20 {
      var c :| c in Grid() && c !in Blocked(bookings);
      assert InGrid(c);
    } else {
      assert forall c :: InGrid(c) ==> c in Grid();
    }
  }

  /** A placement blocks its own cell and no other. */
  lemma PlacementBlocksOneCell(bookings: seq<Booking>, c: Cell)
    requires InGrid(c)
    ensures Blocked(bookings + [CellBooking(c)]) == Blocked(bookings) + {c}
  {
    var after := bookings + [CellBooking(c)];
    forall x | x in Grid()
      ensures Conflicts(after, CellBooking(x)) <==> Conflicts(bookings, CellBooking(x)) || x == c
    {
      CellsOverlapOnlyThemselves(c, x);
      ConflictsAppend(bookings, CellBooking(c), CellBooking(x));
    }
    assert c in Grid();
  }

  lemma ConflictsAppend(bookings: seq<Booking>, last: Booking, range: Booking)
    ensures Conflicts(bookings + [last], range) <==> Conflicts(bookings, range) || Overlap(last, range)
  {
    var after := bookings + [last];
    assert after[|bookings|] == last;
    if i :| 0 <= i < |bookings| && Overlap(bookings[i], range) {
      assert after[i] == bookings[i];
    }
  }

  lemma DisjointAppend(bookings: seq<Booking>, last: Booking)
    ensures Disjoint(bookings + [last]) <==> Disjoint(bookings) && !Conflicts(bookings, last)
  {
    var after := bookings + [last];
    if Disjoint(after) {
      forall i, j | 0 <= i < j < |bookings| ensures !Overlap(bookings[i], bookings[j]) {
        assert !Overlap(after[i], after[j]);
      }
      forall i | 0 <= i < |bookings| ensures !Overlap(bookings[i], last) {
        assert !Overlap(after[i], after[|bookings|]);
      }
    }
  }

  /** One placement for the teacher: a fresh cell while one is left, an overlap afterwards. */
  lemma PlaceOne(bookings: seq<Booking>, i: nat)
    ensures var after := bookings + [CellBooking(Choose(bookings, i))];
      && |Blocked(after)| == (if |Blocked(bookings)| < 20 then |Blocked(bookings)| + 1 else 20)
      && (Disjoint(after) <==> Disjoint(bookings) && |Blocked(bookings)| < 20)
  {
    var c := Choose(bookings, i);
    var stop := ChooseFindsFirstFree(bookings, i);
    BlockedAtMostTwenty(bookings);
    PlacementBlocksOneCell(bookings, c);
    DisjointAppend(bookings, CellBooking(c));
    assert c in Grid();
    if c in Blocked(bookings) {
      assert Blocked(bookings) + {c} == Blocked(bookings);
    }
  }

  /** What is left of a teacher's week after `courses` placements. */
  predicate Filled(before: seq<Booking>, courses: nat, after: seq<Booking>) {
    var total := |Blocked(before)| + courses;
    && |Blocked(after)| == (if total < 20 then total else 20)
    && (Disjoint(after) <==> Disjoint(before) && total <= 20)
  }

  lemma FilledStep(before: seq<Booking>, courses: nat, after: seq<Booking>, i: nat)
    requires Filled(before, courses, after)
    ensures Filled(before, courses + 1, after + [CellBooking(Choose(after, i))])
  {
    PlaceOne(after, i);
  }

  /** One teacher's own bookings after the first `n` courses. */
  function TeacherWeek(bookings: seq<Booking>, teacherIds: seq<string>, t: string, n: nat): seq<Booking>
    requires n <= |teacherIds|
  {
    if n == 0 then bookings
    else
      var before := TeacherWeek(bookings, teacherIds, t, n - 1);
      if teacherIds[n - 1] == t then before + [CellBooking(Choose(before, n - 1))] else before
  }

  lemma {:induction false} PlaceFirstByTeacher(bookings: Bookings, teacherIds: seq<string>, t: string, n: nat)
    requires n <= |teacherIds|
    ensures Of(PlaceFirst(bookings, teacherIds, n), t) == TeacherWeek(Of(bookings, t), teacherIds, t, n)
  {
    if n > 0 {
      PlaceFirstByTeacher(bookings, teacherIds, t, n - 1);
    }
  }

  lemma {:induction false} WeekFills(bookings: seq<Booking>, teacherIds: seq<string>, t: string, n: nat)
    requires n <= |teacherIds|
    ensures Filled(bookings, CoursesOf(teacherIds, t, n), TeacherWeek(bookings, teacherIds, t, n))
  {
    if n == 0 {
      BlockedAtMostTwenty(bookings);
    } else {
      WeekFills(bookings, teacherIds, t, n - 1);
      if teacherIds[n - 1] == t {
        FilledStep(bookings, CoursesOf(teacherIds, t, n - 1), TeacherWeek(bookings, teacherIds, t, n - 1), n - 1);
      }
    }
  }

  /** The seed never double-books a teacher exactly when, for every teacher, the fixed
      bookings do not overlap and the cells they block leave room for all the courses. */
  lemma TimetableIsSafe(bookings: Bookings, teacherIds: seq<string>)
    ensures (forall t :: Disjoint(Of(PlaceFirst(bookings, teacherIds, |teacherIds|), t)))
      <==> (forall t :: Disjoint(Of(bookings, t))
              && |Blocked(Of(bookings, t))| + CoursesOf(teacherIds, t, |teacherIds|) <= 20)
  {
    forall t
      ensures Disjoint(Of(PlaceFirst(bookings, teacherIds, |teacherIds|), t))
        <==> Disjoint(Of(bookings, t)) && |Blocked(Of(bookings, t))| + CoursesOf(teacherIds, t, |teacherIds|) <= 20
    {
      PlaceFirstByTeacher(bookings, teacherIds, t, |teacherIds|);
      WeekFills(Of(bookings, t), teacherIds, t, |teacherIds|);
    }
  }

  lemma {:induction false} AllTheirs(teacherIds: seq<string>, t: string, n: nat)
    requires n <= |teacherIds| && forall i :: 0 <= i < n ==> teacherIds[i] == t
    ensures CoursesOf(teacherIds, t, n) == n
  {
    if n > 0 {
      AllTheirs(teacherIds, t, n - 1);
    }
  }

  /** A teacher of twenty-one courses, and nothing else, is double-booked. */
  lemma OverfullTeacher(t: string) returns (teacherIds: seq<string>)
    ensures |teacherIds| == 21 && !Disjoint(Of(PlaceFirst(map[], teacherIds, 21), t))
  {
    teacherIds := seq(21, i => t);
    AllTheirs(teacherIds, t, 21);
    PlaceFirstByTeacher(map[], teacherIds, t, 21);
    WeekFills([], teacherIds, t, 21);
  }

  /** The bookings fixed by hand for the two first teachers before the loop. */
  const FIRST_FIXED := [Booking(1, 480, 600), Booking(3, 480, 600), Booking(2, 780, 960), Booking(4, 600, 720)]
  const SECOND_FIXED := [Booking(2, 540, 720), Booking(4, 840, 960)]

  lemma FixedDisjoint()
    ensures Disjoint(FIRST_FIXED) && Disjoint(SECOND_FIXED)
  {}

  /** The cells they block. */
  const FIRST_BLOCKED := {Cell(1, 0), Cell(3, 0), Cell(2, 2), Cell(2, 3), Cell(4, 1)}
  const SECOND_BLOCKED := {Cell(2, 0), Cell(2, 1), Cell(4, 2), Cell(4, 3)}

  lemma FirstBlockedCells()
    ensures |Blocked(FIRST_FIXED)| == 5
  {
    forall c: Cell | InGrid(c) ensures Conflicts(FIRST_FIXED, CellBooking(c)) <==> c in FIRST_BLOCKED {
      FirstConflicts(c);
    }
    BlockedAre(FIRST_FIXED, FIRST_BLOCKED);
  }

  lemma SecondBlockedCells()
    ensures |Blocked(SECOND_FIXED)| == 4
  {
    forall c: Cell | InGrid(c) ensures Conflicts(SECOND_FIXED, CellBooking(c)) <==> c in SECOND_BLOCKED {
      SecondConflicts(c);
    }
    BlockedAre(SECOND_FIXED, SECOND_BLOCKED);
  }

  lemma FixedBlockedCells()
    ensures |Blocked(FIRST_FIXED)| == 5 && |Blocked(SECOND_FIXED)| == 4
  {
    FirstBlockedCells();
    SecondBlockedCells();
  }

  lemma BlockedAre(bookings: seq<Booking>, cells: set<Cell>)
    requires forall c :: c in cells ==> InGrid(c)
    requires forall c | InGrid(c) :: Conflicts(bookings, CellBooking(c)) <==> c in cells
    ensures Blocked(bookings) == cells
  {}

  lemma MorningTimes()
    ensures IsClock("08:00") && ToMinutes("08:00") == 480
    ensures IsClock("09:00") && ToMinutes("09:00") == 540
    ensures IsClock("10:00") && ToMinutes("10:00") == 600
  {
    ClockMinutes("08:00");
    ClockMinutes("09:00");
    ClockMinutes("10:00");
  }

  lemma AfternoonTimes()
    ensures IsClock("12:00") && ToMinutes("12:00") == 720
    ensures IsClock("13:00") && ToMinutes("13:00") == 780
    ensures IsClock("14:00") && ToMinutes("14:00") == 840
    ensures IsClock("16:00") && ToMinutes("16:00") == 960
  {
    ClockMinutes("12:00");
    ClockMinutes("13:00");
    ClockMinutes("14:00");
    ClockMinutes("16:00");
  }

  /** The minutes above are those of the clock times in the script. */
  lemma FixedSlots()
    ensures FIRST_FIXED == [
      Slot(1, "08:00", "10:00"), Slot(3, "08:00", "10:00"), Slot(2, "13:00", "16:00"), Slot(4, "10:00", "12:00")]
    ensures SECOND_FIXED == [Slot(2, "09:00", "12:00"), Slot(4, "14:00", "16:00")]
  {
    MorningTimes();
    AfternoonTimes();
  }

  lemma FirstConflicts(c: Cell)
    requires InGrid(c)
    ensures Conflicts(FIRST_FIXED, CellBooking(c)) <==> c in FIRST_BLOCKED
  {
    var b := CellBooking(c);
    assert Conflicts(FIRST_FIXED, b) <==>
      || Overlap(FIRST_FIXED[0], b) || Overlap(FIRST_FIXED[1], b)
      || Overlap(FIRST_FIXED[2], b) || Overlap(FIRST_FIXED[3], b);
  }

  lemma SecondConflicts(c: Cell)
    requires InGrid(c)
    ensures Conflicts(SECOND_FIXED, CellBooking(c)) <==> c in SECOND_BLOCKED
  {
    var b := CellBooking(c);
    assert Conflicts(SECOND_FIXED, b) <==> Overlap(SECOND_FIXED[0], b) || Overlap(SECOND_FIXED[1], b);
  }

  /** The seed as written is safe exactly when the first teacher has at most 15 courses left
      to place, the second at most 16, and everyone else at most 20. */
  lemma SeedIsSafe(first: string, second: string, teacherIds: seq<string>)
    requires first != second
    ensures var fixed := map[first := FIRST_FIXED, second := SECOND_FIXED];
      (forall t :: Disjoint(Of(PlaceFirst(fixed, teacherIds, |teacherIds|), t)))
      <==> (forall t :: CoursesOf(teacherIds, t, |teacherIds|)
              <= if t == first then 15 else if t == second then 16 else 20)
  {
    var fixed := map[first := FIRST_FIXED, second := SECOND_FIXED];
    FixedDisjoint();
    FixedBlockedCells();
    TimetableIsSafe(fixed, teacherIds);
    assert Blocked([]) == {};
    forall t
      ensures Disjoint(Of(fixed, t))
      ensures |Blocked(Of(fixed, t))| == if t == first then 5 else if t == second then 4 else 0
    {}
  }

  /** The loop's variables name a cell: its day, its block, and the clock times of that block. */
  predicate Names(c: Cell, dayOfWeek: int, tb: Block) {
    && c.block < 4 && dayOfWeek == c.day && tb == TIME_BLOCKS[c.block]
    && IsClock(tb.start) && IsClock(tb.end) && Slot(dayOfWeek, tb.start, tb.end) == CellBooking(c)
  }

  lemma CellIsNamed(c: Cell)
    requires c.block < 4
    ensures Names(c, c.day, TIME_BLOCKS[c.block])
  {
    BlockMinutes(c.block);
  }

  class TeacherTimetable {
    var teacherBookings: map<string, seq<Booking>>

    constructor ()
      ensures teacherBookings == map[]
    {
      teacherBookings := map[];
    }

    method BookTeacherSlot(teacherId: string, day: int, start: string, end: string)
      requires IsClock(start) && IsClock(end)
      modifies this
      ensures teacherBookings == Book(old(teacherBookings), teacherId, Slot(day, start, end))
    {
      var bookings := if teacherId in teacherBookings then teacherBookings[teacherId] else [];
      bookings := bookings + [Slot(day, start, end)];
      teacherBookings := teacherBookings[teacherId := bookings];
    }

    predicate HasTeacherConflict(teacherId: string, day: int, start: string, end: string)
      requires IsClock(start) && IsClock(end)
      reads this
    {
      Conflicts(Of(teacherBookings, teacherId), Slot(day, start, end))
    }

    /** One failed attempt: the next block, and the next day when the blocks start over. */
    static method Advance(i: nat, attempts: nat, dayOfWeek: int) returns (nextDay: int, tb: Block)
      requires 1 <= attempts <= 20 && dayOfWeek == Probe(i, attempts - 1).day
      ensures Names(Probe(i, attempts), nextDay, tb)
    {
      NextProbe(i, attempts);
      var blockIndex := (i + attempts) % |TIME_BLOCKS|;
      tb := TIME_BLOCKS[blockIndex];
      nextDay := dayOfWeek;
      if blockIndex == i % |TIME_BLOCKS| {
        nextDay := dayOfWeek % 5 + 1;
      }
      CellIsNamed(Probe(i, attempts));
    }

    /** The loop's test in the cell of one attempt. */
    method TryCell(teacherId: string, ghost c: Cell, dayOfWeek: int, tb: Block) returns (conflict: bool)
      requires Names(c, dayOfWeek, tb)
      ensures conflict == Conflicts(Of(teacherBookings, teacherId), CellBooking(c))
    {
      conflict := HasTeacherConflict(teacherId, dayOfWeek, tb.start, tb.end);
    }

    /** The probe for the course of index `i`: the loop that moves to the next block until the
        teacher is free, or 20 attempts have been made. */
    method FindSlot(i: nat, teacherId: string) returns (dayOfWeek: int, tb: Block)
      ensures Names(Choose(Of(teacherBookings, teacherId), i), dayOfWeek, tb)
    {
      ghost var bookings := Of(teacherBookings, teacherId);
      dayOfWeek := i % 5 + 1;
      tb := TIME_BLOCKS[i % |TIME_BLOCKS|];
      var attempts := 0;
      CellIsNamed(Probe(i, 0));
      var conflict := TryCell(teacherId, Probe(i, 0), dayOfWeek, tb);
      while conflict && attempts < |TIME_BLOCKS| * 5
        invariant 0 <= attempts <= 20 && Names(Probe(i, attempts), dayOfWeek, tb)
        invariant conflict == Conflicts(bookings, CellBooking(Probe(i, attempts)))
        invariant ChooseFrom(bookings, i, attempts) == Choose(bookings, i)
        decreases 20 - attempts
      {
        attempts := attempts + 1;
        dayOfWeek, tb := Advance(i, attempts, dayOfWeek);
        conflict := TryCell(teacherId, Probe(i, attempts), dayOfWeek, tb);
      }
    }

    method PlaceCourse(i: nat, teacherId: string) returns (dayOfWeek: int, tb: Block)
      modifies this
      ensures var c := Choose(Of(old(teacherBookings), teacherId), i);
        && dayOfWeek == c.day && tb == TIME_BLOCKS[c.block]
        && teacherBookings == Book(old(teacherBookings), teacherId, CellBooking(c))
    {
      dayOfWeek, tb := FindSlot(i, teacherId);
      BookTeacherSlot(teacherId, dayOfWeek, tb.start, tb.end);
    }

    method PlaceCourses(teacherIds: seq<string>)
      modifies this
      ensures teacherBookings == PlaceFirst(old(teacherBookings), teacherIds, |teacherIds|)
    {
      for i := 0 to |teacherIds|
        invariant teacherBookings == PlaceFirst(old(teacherBookings), teacherIds, i)
      {
        var _, _ := PlaceCourse(i, teacherIds[i]);
      }
    }
  }
}
