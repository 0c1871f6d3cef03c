/** Worked runs of generateSchedule on one-teacher rosters, showing the day order
    carried from pass to pass, a target left unmet, and targets whose sum exceeds
    the weekly hours. */
module AllocationExamples {
  import opened Timetable
  import opened Allocator

  /** Three hours in one classroom, at most two a day, Monday and Tuesday, the
      first three slots. */
  const Ann := Teacher("Ann", 3, "Math", ["101"], map[], 2, [0, 1], [0, 1, 2])
  const AnnIn101 := Entry("Ann", "Math", "101")

  /** A free slot list holding slot s and nothing earlier yields s. */
  lemma EarliestIs(free: seq<Slot>, s: Slot)
    requires s in free && forall x: Slot :: x < s ==> x !in free
    ensures Earliest(free) == s
  {
  }

  /** A one-teacher, one-classroom roster runs exactly one classroom loop, from
      the empty grid, over the teacher's days in the order given. */
  lemma GenerateSingle(t: Teacher)
    requires |t.classrooms| == 1
    ensures Generate([t]) == FillClass(EmptyCells(), t, t.classrooms[0], Target(t, t.classrooms[0]), t.availableDays)
  {
    assert [t][..0] == [];
    assert t.classrooms[..0] == [];
    assert AllocTeachers(EmptyCells(), [t]) == AllocClasses(EmptyCells(), t, t.classrooms);
  }

  const AnnPass1 := PushCell(EmptyCells(), 0, 0, AnnIn101)
  const AnnPass2 := PushCell(AnnPass1, 1, 0, AnnIn101)
  const AnnPass3 := PushCell(AnnPass2, 1, 1, AnnIn101)

  /** Pass 1: both days empty, Monday stays first, and its slot 0 is free. */
  lemma AnnFirstPass()
    ensures FillClass(EmptyCells(), Ann, "101", 3, [0, 1]) == FillClass(AnnPass1, Ann, "101", 2, [0, 1])
  {
    var c0 := EmptyCells();
    assert EntryFor(Ann, "101") == AnnIn101;
    EmptyCellsCountNothing(OfTeacher("Ann"));
    var l0 := Loads(c0, "Ann");
    assert l0[0] == 0 && l0[1] == 0;
    assert SortByLoad([1], l0) == [1];
    assert [0, 1][1..] == [1];
    assert SortByLoad([0, 1], l0) == [0, 1];
    var f0 := FreeSlots(c0, 0, [0, 1, 2], "Ann", "101");
    FreeSlotsSpec(c0, 0, [0, 1, 2], "Ann", "101");
    assert 0 in f0;
    EarliestIs(f0, 0);
    FillClassPlaces(c0, Ann, "101", 3, [0, 1], [0, 1], f0);
  }

  /** Pass 2: Monday has one hour and Tuesday none, so Tuesday moves first. */
  lemma AnnSecondPass()
    ensures FillClass(AnnPass1, Ann, "101", 2, [0, 1]) == FillClass(AnnPass2, Ann, "101", 1, [1, 0])
  {
    var c0, c1 := EmptyCells(), AnnPass1;
    assert EntryFor(Ann, "101") == AnnIn101;
    EmptyCellsCountNothing(OfTeacher("Ann"));
    PushDayLoad(c0, 0, 0, AnnIn101, 0, "Ann");
    PushDayLoad(c0, 0, 0, AnnIn101, 1, "Ann");
    var l1 := Loads(c1, "Ann");
    assert l1[0] == 1 && l1[1] == 0;
    assert SortByLoad([1], l1) == [1];
    assert InsertByLoad(0, [], l1) == [0];
    assert [0, 1][1..] == [1];
    assert SortByLoad([0, 1], l1) == [1, 0];
    var f1 := FreeSlots(c1, 1, [0, 1, 2], "Ann", "101");
    FreeSlotsSpec(c1, 1, [0, 1, 2], "Ann", "101");
    assert c1[1][0] == [];
    assert 0 in f1;
    EarliestIs(f1, 0);
    FillClassPlaces(c1, Ann, "101", 2, [0, 1], [1, 0], f1);
  }

  /** Pass 3: one hour on each day; the tie keeps [Tuesday, Monday], and Tuesday
      8-9 is taken by Ann, so Tuesday 9-10 is used. */
  lemma AnnThirdPass()
    ensures FillClass(AnnPass2, Ann, "101", 1, [1, 0]) == AnnPass3
  {
    var c0, c1, c2 := EmptyCells(), AnnPass1, AnnPass2;
    assert EntryFor(Ann, "101") == AnnIn101;
    EmptyCellsCountNothing(OfTeacher("Ann"));
    PushDayLoad(c0, 0, 0, AnnIn101, 0, "Ann");
    PushDayLoad(c1, 1, 0, AnnIn101, 0, "Ann");
    PushDayLoad(c0, 0, 0, AnnIn101, 1, "Ann");
    PushDayLoad(c1, 1, 0, AnnIn101, 1, "Ann");
    var l2 := Loads(c2, "Ann");
    assert l2[0] == 1 && l2[1] == 1;
    assert SortByLoad([0], l2) == [0];
    assert [1, 0][1..] == [0];
    assert SortByLoad([1, 0], l2) == [1, 0];
    var f2 := FreeSlots(c2, 1, [0, 1, 2], "Ann", "101");
    FreeSlotsSpec(c2, 1, [0, 1, 2], "Ann", "101");
    assert c2[1][0] == [AnnIn101] && HasTeacher(c2[1][0], "Ann");
    assert c2[1][1] == [];
    assert 0 !in f2 && 1 in f2;
    EarliestIs(f2, 1);
    FillClassPlaces(c2, Ann, "101", 1, [1, 0], [1, 0], f2);
  }

  /** Ann gets Monday 8-9, then Tuesday 8-9, then Tuesday 9-10: on the third pass
      both days carry one hour, and the tie keeps Tuesday first because the
      previous pass left it first. A sort of the original [Monday, Tuesday] order
      would have put the third hour on Monday 9-10, which stays empty. */
  lemma TieKeepsPreviousOrder()
    ensures Generate([Ann]) ==
      PushCell(PushCell(PushCell(EmptyCells(), 0, 0, AnnIn101), 1, 0, AnnIn101), 1, 1, AnnIn101)
    ensures Generate([Ann])[0][1] == []
  {
    assert Target(Ann, "101") == 3;
    GenerateSingle(Ann);
    AnnFirstPass();
    AnnSecondPass();
    AnnThirdPass();
  }

  /** Ten hours but a single day with a single slot: one entry is placed, the day
      is then dropped, and the loop ends with nine hours unplaced and nothing
      reported. */
  const Bea := Teacher("Bea", 10, "Art", ["A1"], map[], 0, [0], [0])
  const BeaInA1 := Entry("Bea", "Art", "A1")

  const BeaPass1 := PushCell(EmptyCells(), 0, 0, BeaInA1)

  /** Pass 1: Monday 8-9 is free and receives the entry. */
  lemma BeaFirstPass()
    ensures FillClass(EmptyCells(), Bea, "A1", 10, [0]) == FillClass(BeaPass1, Bea, "A1", 9, [0])
  {
    var c0 := EmptyCells();
    assert EntryFor(Bea, "A1") == BeaInA1;
    EmptyCellsCountNothing(OfTeacher("Bea"));
    var l0 := Loads(c0, "Bea");
    assert SortByLoad([0], l0) == [0];
    var f0 := FreeSlots(c0, 0, [0], "Bea", "A1");
    FreeSlotsSpec(c0, 0, [0], "Bea", "A1");
    assert 0 in f0;
    EarliestIs(f0, 0);
    FillClassPlaces(c0, Bea, "A1", 10, [0], [0], f0);
  }

  /** Pass 2: Monday is under the cap but its only slot is Bea's own, so Monday is
      dropped and no day is left. */
  lemma BeaSecondPass()
    ensures FillClass(BeaPass1, Bea, "A1", 9, [0]) == BeaPass1
  {
    var c1: Cells := BeaPass1;
    var l1 := Loads(c1, "Bea");
    assert SortByLoad([0], l1) == [0];
    var f1 := FreeSlots(c1, 0, [0], "Bea", "A1");
    FreeSlotsSpec(c1, 0, [0], "Bea", "A1");
    assert c1[0][0] == [BeaInA1] && c1[0][0][0].teacher == "Bea";
    assert HasTeacher(c1[0][0], "Bea");
    assert f1 == [];
    FillClassDropsDay(c1, Bea, "A1", 9, [0], [0]);
    assert [0][1..] == [];
  }

  lemma TargetLeftUnmet()
    ensures Generate([Bea]) == PushCell(EmptyCells(), 0, 0, BeaInA1)
    ensures GridTally(Generate([Bea]), AnyEntry) == 1
  {
    assert Target(Bea, "A1") == 10;
    GenerateSingle(Bea);
    BeaFirstPass();
    BeaSecondPass();
    EmptyCellsCountNothing(AnyEntry);
    PushTally(EmptyCells(), 0, 0, BeaInA1, AnyEntry);
  }

  /** Three weekly hours over two classrooms, one of them given an explicit zero:
      both fall back to the even split rounded up, and together they ask for four. */
  const Cy := Teacher("Cy", 3, "Music", ["a", "b"], map["a" := 0], 0, [0], [0])

  lemma TargetsCanExceedWeeklyHours()
    ensures Target(Cy, "a") == 2 && Target(Cy, "b") == 2
    ensures Target(Cy, "a") + Target(Cy, "b") > Cy.hoursPerWeek
  {
  }
}
