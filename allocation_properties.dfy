/** What generateSchedule guarantees about the grid it builds: no teacher and no
    classroom twice in one cell, every entry within its teacher's availability,
    every teacher within their daily cap, and every (teacher, classroom) pair
    within its hour target. */
module AllocationProperties {
  import opened Timetable
  import opened Allocator

  /** e is an entry teacher t may receive at (d, s). */
  predicate PlacedFor(t: Teacher, d: Day, s: Slot, e: Entry) {
    e.teacher == t.name && e.subject == t.subject && e.classroom in t.classrooms &&
    d in t.availableDays && s in t.availableTimeSlots
  }

  /** Every entry of the grid is one some teacher of the roster may receive there. */
  ghost predicate Justified(cells: Cells, roster: seq<Teacher>)
    requires WellShaped(cells)
  {
    forall d: Day, s: Slot, k :: 0 <= k < |cells[d][s]| ==>
      exists i :: 0 <= i < |roster| && PlacedFor(roster[i], d, s, cells[d][s][k])
  }

  predicate UniqueNames(roster: seq<Teacher>) {
    forall i, j :: 0 <= i < j < |roster| ==> roster[i].name != roster[j].name
  }

  predicate NoDuplicates(cs: seq<string>) {
    forall i, j :: 0 <= i < j < |cs| ==> cs[i] != cs[j]
  }

  ghost predicate WithinDailyCap(cells: Cells, roster: seq<Teacher>)
    requires WellShaped(cells)
  {
    forall i, d: Day :: 0 <= i < |roster| ==> DayLoad(cells, d, roster[i].name) <= MaxPerDay(roster[i])
  }

  /** The invariant every placement keeps. */
  ghost predicate Sound(cells: Cells, roster: seq<Teacher>) {
    WellShaped(cells) && NoConflicts(cells) && Justified(cells, roster) &&
    (UniqueNames(roster) ==> WithinDailyCap(cells, roster))
  }

  lemma EmptyIsSound(roster: seq<Teacher>)
    ensures Sound(EmptyCells(), roster)
  {
    EmptyCellsCountNothing(AnyEntry);
    forall i, d: Day | 0 <= i < |roster| ensures DayLoad(EmptyCells(), d, roster[i].name) == 0 {
      EmptyCellsCountNothing(OfTeacher(roster[i].name));
    }
  }

  /** A push that passed both checks and the daily cap keeps the invariant. */
  lemma PushKeepsSound(cells: Cells, roster: seq<Teacher>, i: nat, c: string, d: Day, s: Slot)
    requires Sound(cells, roster) && i < |roster|
    requires c in roster[i].classrooms && d in roster[i].availableDays && s in roster[i].availableTimeSlots
    requires IsFree(cells[d][s], roster[i].name, c)
    requires DayLoad(cells, d, roster[i].name) < MaxPerDay(roster[i])
    ensures Sound(PushCell(cells, d, s, EntryFor(roster[i], c)), roster)
  {
    var t := roster[i];
    var e := EntryFor(t, c);
    var r: Cells := PushCell(cells, d, s, e);
    forall d': Day, s': Slot, a: int, b: int | 0 <= a < b < |r[d'][s']|
      ensures r[d'][s'][a].teacher != r[d'][s'][b].teacher && r[d'][s'][a].classroom != r[d'][s'][b].classroom
    {
      if d' == d && s' == s && b == |cells[d][s]| {
        assert r[d][s][a] == cells[d][s][a] && r[d][s][b] == e;
      } else {
        assert r[d'][s'][a] == cells[d'][s'][a] && r[d'][s'][b] == cells[d'][s'][b];
      }
    }
    forall d': Day, s': Slot, k: int | 0 <= k < |r[d'][s']|
      ensures exists j :: 0 <= j < |roster| && PlacedFor(roster[j], d', s', r[d'][s'][k])
    {
      if d' == d && s' == s && k == |cells[d][s]| {
        assert PlacedFor(roster[i], d', s', r[d'][s'][k]);
      } else {
        assert r[d'][s'][k] == cells[d'][s'][k];
      }
    }
    if UniqueNames(roster) {
      forall j, d': Day | 0 <= j < |roster| ensures DayLoad(r, d', roster[j].name) <= MaxPerDay(roster[j]) {
        PushDayLoad(cells, d, s, e, d', roster[j].name);
        if j < i {
          assert roster[j].name != t.name;
        } else if j > i {
          assert roster[j].name != t.name;
        }
      }
    }
  }

  /** Sorting the candidate days keeps them among the teacher's available days. */
  lemma SortedStaysAvailable(days: seq<Day>, load: seq<nat>, avail: seq<Day>)
    requires |load| == DayCount && forall x :: x in days ==> x in avail
    ensures forall x :: x in SortByLoad(days, load) ==> x in avail
  {
    SortByLoadSorts(days, load);
    forall x | x in SortByLoad(days, load) ensures x in avail {
      assert x in multiset(SortByLoad(days, load));
    }
  }

  /** One pass of the while loop re-sorts the candidate days and tries the first.
      It either drops that day without touching the grid, because it is at the
      daily cap or has no free slot, or places the entry there at the free slot
      the teacher lists with the earliest start.
      Either way the remaining days are among the candidates, and hours plus days
      go down, so the loop ends. */
  lemma LoopPass(cells: Cells, t: Teacher, c: string, remaining: nat, days: seq<Day>)
    returns (placed: bool, d: Day, s: Slot, next: Cells, remaining': nat, days': seq<Day>)
    requires WellShaped(cells) && remaining > 0 && days != []
    ensures WellShaped(next)
    ensures forall x :: x in days' ==> x in days
    ensures remaining' + |days'| < remaining + |days|
    ensures FillClass(cells, t, c, remaining, days) == FillClass(next, t, c, remaining', days')
    ensures d == SortByLoad(days, Loads(cells, t.name))[0]
    ensures !placed ==> (next == cells && remaining' == remaining &&
      days' == SortByLoad(days, Loads(cells, t.name))[1..] &&
      (DayLoad(cells, d, t.name) >= MaxPerDay(t) ||
       forall x :: x in t.availableTimeSlots ==> !IsFree(cells[d][x], t.name, c)))
    ensures placed ==> (next == PushCell(cells, d, s, EntryFor(t, c)) && remaining' == remaining - 1 &&
      days' == SortByLoad(days, Loads(cells, t.name)) &&
      d in days && s in t.availableTimeSlots && IsFree(cells[d][s], t.name, c) &&
      DayLoad(cells, d, t.name) < MaxPerDay(t))
    ensures placed ==> forall x :: x in t.availableTimeSlots && IsFree(cells[d][x], t.name, c) ==>
      StartHour(s) <= StartHour(x)
  {
    var sorted := SortByLoad(days, Loads(cells, t.name));
    SortedStaysAvailable(days, Loads(cells, t.name), days);
    d := sorted[0];
    var free := FreeSlots(cells, d, t.availableTimeSlots, t.name, c);
    FreeSlotsSpec(cells, d, t.availableTimeSlots, t.name, c);
    if DayLoad(cells, d, t.name) >= MaxPerDay(t) || free == [] {
      FillClassDropsDay(cells, t, c, remaining, days, sorted);
      placed, s, next, remaining', days' := false, 0, cells, remaining, sorted[1..];
      assert forall x :: x in days' ==> x in sorted;
    } else {
      FillClassPlaces(cells, t, c, remaining, days, sorted, free);
      s := Earliest(free);
      placed, next, remaining', days' := true, PushCell(cells, d, s, EntryFor(t, c)), remaining - 1, sorted;
    }
  }

  lemma {:induction false} FillClassKeepsSound(cells: Cells, roster: seq<Teacher>, i: nat, c: string, remaining: nat, days: seq<Day>)
    requires Sound(cells, roster) && i < |roster| && c in roster[i].classrooms
    requires forall x :: x in days ==> x in roster[i].availableDays
    ensures Sound(FillClass(cells, roster[i], c, remaining, days), roster)
    decreases remaining + |days|
  {
    if remaining > 0 && days != [] {
      var placed, d, s, next, remaining', days' := LoopPass(cells, roster[i], c, remaining, days);
      if placed {
        PushKeepsSound(cells, roster, i, c, d, s);
      }
      FillClassKeepsSound(next, roster, i, c, remaining', days');
    }
  }

  lemma {:induction false} AllocClassesKeepsSound(cells: Cells, roster: seq<Teacher>, i: nat, cs: seq<string>)
    requires Sound(cells, roster) && i < |roster| && forall c :: c in cs ==> c in roster[i].classrooms
    ensures Sound(AllocClasses(cells, roster[i], cs), roster)
  {
    if cs != [] {
      var c := cs[|cs| - 1];
      AllocClassesKeepsSound(cells, roster, i, cs[..|cs| - 1]);
      FillClassKeepsSound(AllocClasses(cells, roster[i], cs[..|cs| - 1]), roster, i, c, Target(roster[i], c), roster[i].availableDays);
    }
  }

  lemma {:induction false} AllocTeachersSound(roster: seq<Teacher>, n: nat)
    requires n <= |roster|
    ensures Sound(AllocTeachers(EmptyCells(), roster[..n]), roster)
  {
    if n == 0 {
      assert roster[..0] == [];
      EmptyIsSound(roster);
    } else {
      AllocTeachersSound(roster, n - 1);
      assert roster[..n][..n - 1] == roster[..n - 1];
      AllocClassesKeepsSound(AllocTeachers(EmptyCells(), roster[..n - 1]), roster, n - 1, roster[n - 1].classrooms);
    }
  }

  lemma GenerateIsSound(roster: seq<Teacher>)
    ensures Sound(Generate(roster), roster)
  {
    AllocTeachersSound(roster, |roster|);
    assert roster[..|roster|] == roster;
  }

  /** No (day, slot) cell holds two entries of one teacher or of one classroom. */
  lemma GenerateHasNoDoubleBooking(roster: seq<Teacher>)
    ensures NoConflicts(Generate(roster))
  {
    GenerateIsSound(roster);
  }

  /** Every placed entry carries a roster teacher's name, first subject and one of
      their classrooms, on one of their days, in one of their slots. */
  lemma GenerateRespectsAvailability(roster: seq<Teacher>)
    ensures forall d: Day, s: Slot, k :: 0 <= k < |Generate(roster)[d][s]| ==>
      exists i :: 0 <= i < |roster| && PlacedFor(roster[i], d, s, Generate(roster)[d][s][k])
  {
    GenerateIsSound(roster);
  }

  /** With unique names, no teacher has more entries on a day than their cap
      (maxHoursPerDay, or 8 when it is missing or zero). */
  lemma GenerateRespectsDailyCap(roster: seq<Teacher>)
    requires UniqueNames(roster)
    ensures forall i, d: Day :: 0 <= i < |roster| ==> DayLoad(Generate(roster), d, roster[i].name) <= MaxPerDay(roster[i])
  {
    GenerateIsSound(roster);
  }

  // ---------------------------------------------------------------------------
  // Per-classroom targets

  /** One (teacher, classroom) loop adds only its own entries, at most `remaining` of them. */
  lemma {:induction false} FillClassTally(cells: Cells, t: Teacher, c: string, remaining: nat, days: seq<Day>, q: Query)
    requires WellShaped(cells)
    ensures GridTally(cells, q) <= GridTally(FillClass(cells, t, c, remaining, days), q) <= GridTally(cells, q) + remaining
    ensures !Matches(EntryFor(t, c), q) ==> GridTally(FillClass(cells, t, c, remaining, days), q) == GridTally(cells, q)
    decreases remaining + |days|
  {
    if remaining > 0 && days != [] {
      var placed, d, s, next, remaining', days' := LoopPass(cells, t, c, remaining, days);
      if placed {
        PushTally(cells, d, s, EntryFor(t, c), q);
      }
      FillClassTally(next, t, c, remaining', days', q);
    }
  }

  /** A teacher's classrooms loop leaves every other teacher's counts alone. */
  lemma {:induction false} AllocClassesLeavesOthers(cells: Cells, t: Teacher, cs: seq<string>, q: Query)
    requires WellShaped(cells) && (forall c :: c in cs ==> c in t.classrooms)
    requires q.OfTeacherIn? && q.name != t.name
    ensures GridTally(AllocClasses(cells, t, cs), q) == GridTally(cells, q)
  {
    if cs != [] {
      var c := cs[|cs| - 1];
      AllocClassesLeavesOthers(cells, t, cs[..|cs| - 1], q);
      FillClassTally(AllocClasses(cells, t, cs[..|cs| - 1]), t, c, Target(t, c), t.availableDays, q);
    }
  }

  /** With distinct classrooms, a teacher's classrooms loop adds at most the target
      of each classroom to that classroom's count. */
  lemma {:induction false} AllocClassesWithinTargets(cells: Cells, t: Teacher, cs: seq<string>, c0: string)
    requires WellShaped(cells) && (forall c :: c in cs ==> c in t.classrooms) && NoDuplicates(cs)
    ensures c0 !in cs ==>
      GridTally(AllocClasses(cells, t, cs), OfTeacherIn(t.name, c0)) == GridTally(cells, OfTeacherIn(t.name, c0))
    ensures c0 in cs ==>
      GridTally(AllocClasses(cells, t, cs), OfTeacherIn(t.name, c0)) <= GridTally(cells, OfTeacherIn(t.name, c0)) + Target(t, c0)
  {
    if cs != [] {
      var pre := cs[..|cs| - 1];
      var c := cs[|cs| - 1];
      assert cs == pre + [c];
      assert NoDuplicates(pre);
      assert c0 == c ==> c0 !in pre;
      AllocClassesWithinTargets(cells, t, pre, c0);
      FillClassTally(AllocClasses(cells, t, pre), t, c, Target(t, c), t.availableDays, OfTeacherIn(t.name, c0));
    }
  }

  lemma {:induction false} AllocTeachersLeaveOthers(cells: Cells, ts: seq<Teacher>, q: Query)
    requires WellShaped(cells) && q.OfTeacherIn? && forall j :: 0 <= j < |ts| ==> ts[j].name != q.name
    ensures GridTally(AllocTeachers(cells, ts), q) == GridTally(cells, q)
  {
    if ts != [] {
      var t := ts[|ts| - 1];
      AllocTeachersLeaveOthers(cells, ts[..|ts| - 1], q);
      AllocClassesLeavesOthers(AllocTeachers(cells, ts[..|ts| - 1]), t, t.classrooms, q);
    }
  }

  lemma {:induction false} PrefixWithinTarget(roster: seq<Teacher>, i: nat, c: string, n: nat)
    requires UniqueNames(roster) && i < n <= |roster|
    requires c in roster[i].classrooms && NoDuplicates(roster[i].classrooms)
    ensures GridTally(AllocTeachers(EmptyCells(), roster[..n]), OfTeacherIn(roster[i].name, c)) <= Target(roster[i], c)
  {
    var q := OfTeacherIn(roster[i].name, c);
    assert roster[..n][..n - 1] == roster[..n - 1];
    if n == i + 1 {
      AllocTeachersLeaveOthers(EmptyCells(), roster[..i], q);
      EmptyCellsCountNothing(q);
      AllocClassesWithinTargets(AllocTeachers(EmptyCells(), roster[..i]), roster[i], roster[i].classrooms, c);
    } else {
      PrefixWithinTarget(roster, i, c, n - 1);
      AllocClassesLeavesOthers(AllocTeachers(EmptyCells(), roster[..n - 1]), roster[n - 1], roster[n - 1].classrooms, q);
    }
  }

  /** With unique teacher names and distinct classroom names, each teacher gets at
      most the target of each classroom in that classroom: classroomHours[c] when
      nonzero, else ceil(hoursPerWeek / number of classrooms). */
  lemma GenerateWithinClassTargets(roster: seq<Teacher>, i: nat, c: string)
    requires UniqueNames(roster) && i < |roster|
    requires c in roster[i].classrooms && NoDuplicates(roster[i].classrooms)
    ensures GridTally(Generate(roster), OfTeacherIn(roster[i].name, c)) <= Target(roster[i], c)
  {
    PrefixWithinTarget(roster, i, c, |roster|);
    assert roster[..|roster|] == roster;
  }
}
