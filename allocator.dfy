/** The greedy weekly allocator (generateSchedule): starting from an empty grid,
    for each teacher and each of their preferred classrooms in order, it places
    one hour at a time on the least-loaded candidate day, in the earliest slot
    where neither the teacher nor the classroom is busy, until the classroom's
    target is met or no candidate day is left. */
module Allocator {
  import opened Timetable

  // ---------------------------------------------------------------------------
  // Hour targets and the daily cap

  /** Math.ceil(a / b) on natural numbers. */
  function CeilDiv(a: nat, b: nat): (r: nat)
    requires b > 0
    ensures a <= r * b < a + b
  {
    var n := a + b - 1;
    var r := n / b;
    assert n == r * b + n % b && 0 <= n % b < b;
    r
  }

  /** The hours to place in classroom c: its explicit hours when given and
      nonzero (a zero falls through the `||`), otherwise the weekly hours split
      evenly across the classrooms, rounded up. */
  function Target(t: Teacher, c: string): (r: nat)
    requires c in t.classrooms
    ensures c in t.classroomHours && t.classroomHours[c] != 0 ==> r == t.classroomHours[c]
    ensures !(c in t.classroomHours && t.classroomHours[c] != 0) ==>
      t.hoursPerWeek <= r * |t.classrooms| < t.hoursPerWeek + |t.classrooms|
  {
    if c in t.classroomHours && t.classroomHours[c] != 0 then t.classroomHours[c]
    else CeilDiv(t.hoursPerWeek, |t.classrooms|)
  }

  /** The first classrooms.forEach: the map from each listed classroom to its target. */
  method ClassroomTargets(t: Teacher) returns (counts: map<string, nat>)
    ensures forall c :: c in counts <==> c in t.classrooms
    ensures forall c :: c in t.classrooms ==> counts[c] == Target(t, c)
  {
    counts := map[];
    for i := 0 to |t.classrooms|
      invariant forall c :: c in counts <==> c in t.classrooms[..i]
      invariant forall c :: c in counts ==> c in t.classrooms && counts[c] == Target(t, c)
    {
      var classroom := t.classrooms[i];
      var explicit := if classroom in t.classroomHours then t.classroomHours[classroom] else 0;
      var maxHoursForClass := if explicit != 0 then explicit else CeilDiv(t.hoursPerWeek, |t.classrooms|);
      counts := counts[classroom := maxHoursForClass];
    }
  }

  /** The parsed maximum hours per day, or 8 when it is missing or zero. */
  function MaxPerDay(t: Teacher): (r: nat)
    ensures r > 0
    ensures t.maxHoursPerDay > 0 ==> r == t.maxHoursPerDay
  {
    if t.maxHoursPerDay == 0 then 8 else t.maxHoursPerDay
  }

  // ---------------------------------------------------------------------------
  // Ordering candidate days by load

  /** The teacher's hours on each day of the week. */
  function Loads(cells: Cells, name: string): (load: seq<nat>)
    requires WellShaped(cells)
    ensures |load| == DayCount
  {
    seq(DayCount, d requires 0 <= d < DayCount => DayLoad(cells, d, name))
  }

  predicate SortedByLoad(days: seq<Day>, load: seq<nat>)
    requires |load| == DayCount
  {
    forall i, j :: 0 <= i < j < |days| ==> load[days[i]] <= load[days[j]]
  }

  /** Puts x in front of the first day whose load is not below its own. */
  function InsertByLoad(x: Day, days: seq<Day>, load: seq<nat>): (r: seq<Day>)
    requires |load| == DayCount
    ensures |r| == |days| + 1
  {
    if days == [] || load[x] <= load[days[0]] then [x] + days
    else [days[0]] + InsertByLoad(x, days[1..], load)
  }

  /** availableDays.sort((a, b) => load[a] - load[b]), the language's stable sort
      (see SortByLoadSorts and SortByLoadIsStable). */
  function SortByLoad(days: seq<Day>, load: seq<nat>): (r: seq<Day>)
    requires |load| == DayCount
    ensures |r| == |days|
  {
    if days == [] then []
    else InsertByLoad(days[0], SortByLoad(days[1..], load), load)
  }

  lemma SortedCons(h: Day, rest: seq<Day>, load: seq<nat>)
    requires |load| == DayCount && SortedByLoad(rest, load)
    requires forall j :: 0 <= j < |rest| ==> load[h] <= load[rest[j]]
    ensures SortedByLoad([h] + rest, load)
  {
    var r := [h] + rest;
    forall i, j | 0 <= i < j < |r| ensures load[r[i]] <= load[r[j]] {
      assert r[j] == rest[j - 1];
      if i > 0 { assert r[i] == rest[i - 1]; }
    }
  }

  /** Inserting keeps every load at or above a common lower bound. */
  lemma {:induction false} InsertByLoadAbove(x: Day, days: seq<Day>, load: seq<nat>, lo: nat)
    requires |load| == DayCount && load[x] >= lo
    requires forall j :: 0 <= j < |days| ==> load[days[j]] >= lo
    ensures forall j :: 0 <= j < |days| + 1 ==> load[InsertByLoad(x, days, load)[j]] >= lo
  {
    if days != [] && load[x] > load[days[0]] {
      InsertByLoadAbove(x, days[1..], load, lo);
      var r := InsertByLoad(x, days, load);
      forall j | 0 <= j < |r| ensures load[r[j]] >= lo {
        if j > 0 { assert r[j] == InsertByLoad(x, days[1..], load)[j - 1]; }
      }
    }
  }

  lemma {:induction false} InsertByLoadSorts(x: Day, days: seq<Day>, load: seq<nat>)
    requires |load| == DayCount && SortedByLoad(days, load)
    ensures SortedByLoad(InsertByLoad(x, days, load), load)
  {
    if days == [] || load[x] <= load[days[0]] {
      SortedCons(x, days, load);
    } else {
      var rest := InsertByLoad(x, days[1..], load);
      assert SortedByLoad(days[1..], load);
      InsertByLoadSorts(x, days[1..], load);
      InsertByLoadAbove(x, days[1..], load, load[days[0]]);
      SortedCons(days[0], rest, load);
    }
  }

  lemma {:induction false} InsertByLoadPermutes(x: Day, days: seq<Day>, load: seq<nat>)
    requires |load| == DayCount
    ensures multiset(InsertByLoad(x, days, load)) == multiset(days) + multiset{x}
  {
    if days != [] && load[x] > load[days[0]] {
      var rest := InsertByLoad(x, days[1..], load);
      InsertByLoadPermutes(x, days[1..], load);
      assert days == [days[0]] + days[1..];
      assert multiset([days[0]] + rest) == multiset{days[0]} + multiset(rest);
    }
  }

  /** The sort orders the days by ascending load and is a permutation of them. */
  lemma {:induction false} SortByLoadSorts(days: seq<Day>, load: seq<nat>)
    requires |load| == DayCount
    ensures SortedByLoad(SortByLoad(days, load), load)
    ensures multiset(SortByLoad(days, load)) == multiset(days)
  {
    if days != [] {
      SortByLoadSorts(days[1..], load);
      InsertByLoadSorts(days[0], SortByLoad(days[1..], load), load);
      InsertByLoadPermutes(days[0], SortByLoad(days[1..], load), load);
      assert days == [days[0]] + days[1..];
      assert multiset(days) == multiset(days[1..]) + multiset{days[0]};
    }
  }

  /** The days of `days` whose load is k, in their order. */
  function WithLoad(days: seq<Day>, load: seq<nat>, k: nat): seq<Day>
    requires |load| == DayCount
  {
    if days == [] then []
    else Only(days[0], load, k) + WithLoad(days[1..], load, k)
  }

  /** The one-element case of WithLoad. */
  function Only(x: Day, load: seq<nat>, k: nat): seq<Day>
    requires |load| == DayCount
  {
    if load[x] == k then [x] else []
  }

  lemma {:induction false} InsertWithLoad(x: Day, days: seq<Day>, load: seq<nat>, k: nat)
    requires |load| == DayCount
    ensures WithLoad(InsertByLoad(x, days, load), load, k) == Only(x, load, k) + WithLoad(days, load, k)
  {
    if days == [] || load[x] <= load[days[0]] {
      assert ([x] + days)[1..] == days;
      assert WithLoad([x] + days, load, k) == Only(x, load, k) + WithLoad(days, load, k);
    } else {
      var rest := InsertByLoad(x, days[1..], load);
      InsertWithLoad(x, days[1..], load, k);
      assert ([days[0]] + rest)[1..] == rest;
      assert WithLoad([days[0]] + rest, load, k) == Only(days[0], load, k) + WithLoad(rest, load, k);
      assert WithLoad(days, load, k) == Only(days[0], load, k) + WithLoad(days[1..], load, k);
      assert Only(days[0], load, k) == [] || Only(x, load, k) == [];
    }
  }

  /** Stability: for every load value, the days with that load keep their
      relative order. With SortByLoadSorts this fixes the result uniquely. */
  lemma {:induction false} SortByLoadIsStable(days: seq<Day>, load: seq<nat>, k: nat)
    requires |load| == DayCount
    ensures WithLoad(SortByLoad(days, load), load, k) == WithLoad(days, load, k)
  {
    if days != [] {
      SortByLoadIsStable(days[1..], load, k);
      InsertWithLoad(days[0], SortByLoad(days[1..], load), load, k);
      assert WithLoad(days, load, k) == Only(days[0], load, k) + WithLoad(days[1..], load, k);
    }
  }

  /** The day tried first is a least-loaded candidate, and among the least-loaded
      it is the one that comes first in the current order. */
  lemma {:induction false} SortHeadIsFirstLeastLoaded(days: seq<Day>, load: seq<nat>)
    requires |load| == DayCount && |days| > 0
    ensures forall j :: 0 <= j < |days| ==> load[SortByLoad(days, load)[0]] <= load[days[j]]
    ensures exists i :: (0 <= i < |days| && days[i] == SortByLoad(days, load)[0] &&
                         forall j :: 0 <= j < i ==> load[days[j]] > load[days[i]])
  {
    var x := days[0];
    var rest := days[1..];
    if rest == [] {
      assert SortByLoad(days, load) == [x];
    } else {
      SortHeadIsFirstLeastLoaded(rest, load);
      var h := SortByLoad(rest, load)[0];
      var i' :| 0 <= i' < |rest| && rest[i'] == h && forall j :: 0 <= j < i' ==> load[rest[j]] > load[rest[i']];
      if load[x] <= load[h] {
        assert SortByLoad(days, load)[0] == x;
        assert days[0] == x;
      } else {
        assert SortByLoad(days, load)[0] == h;
        assert days[i' + 1] == h;
        forall j | 0 <= j < i' + 1 ensures load[days[j]] > load[days[i' + 1]] {
          if j > 0 { assert days[j] == rest[j - 1]; }
        }
      }
    }
  }

  // ---------------------------------------------------------------------------
  // Free slots (the conflict check)

  /** `cell.some(entry => entry.teacher === name)` */
  predicate HasTeacher(cell: seq<Entry>, name: string) {
    exists k :: 0 <= k < |cell| && cell[k].teacher == name
  }

  /** `cell.some(entry => entry.classroom === classroom)` */
  predicate HasClassroom(cell: seq<Entry>, classroom: string) {
    exists k :: 0 <= k < |cell| && cell[k].classroom == classroom
  }

  predicate IsFree(cell: seq<Entry>, name: string, classroom: string) {
    !HasTeacher(cell, name) && !HasClassroom(cell, classroom)
  }

  /** The teacher's available slots where, on day d, neither the teacher nor the
      classroom already has an entry. */
  function FreeSlots(cells: Cells, d: Day, slots: seq<Slot>, name: string, classroom: string): (r: seq<Slot>)
    requires WellShaped(cells)
    ensures |r| <= |slots|
  {
    if slots == [] then []
    else
      (if IsFree(cells[d][slots[0]], name, classroom) then [slots[0]] else []) +
      FreeSlots(cells, d, slots[1..], name, classroom)
  }

  /** A slot is offered exactly when the teacher lists it and it passes both checks. */
  lemma {:induction false} FreeSlotsSpec(cells: Cells, d: Day, slots: seq<Slot>, name: string, classroom: string)
    requires WellShaped(cells)
    ensures forall s: Slot :: s in FreeSlots(cells, d, slots, name, classroom) <==>
      s in slots && IsFree(cells[d][s], name, classroom)
  {
    if slots != [] {
      FreeSlotsSpec(cells, d, slots[1..], name, classroom);
      assert slots == [slots[0]] + slots[1..];
    }
  }

  /** The first slot once the free slots are sorted by start hour. */
  function Earliest(slots: seq<Slot>): (s: Slot)
    requires |slots| > 0
    ensures s in slots
    ensures forall x :: x in slots ==> StartHour(s) <= StartHour(x)
  {
    if |slots| == 1 then slots[0]
    else
      var m := Earliest(slots[1..]);
      if StartHour(slots[0]) <= StartHour(m) then slots[0] else m
  }

  // ---------------------------------------------------------------------------
  // The allocation, as functions on the grid

  /** The entry placed for teacher t in classroom c. */
  function EntryFor(t: Teacher, c: string): Entry {
    Entry(t.name, t.subject, c)
  }

  /** The while loop for one (teacher, classroom) pair, from the grid, the hours
      still to place and the candidate days in their current order. The order is
      carried from one pass to the next: every pass re-sorts the order the
      previous pass left. */
  function FillClass(cells: Cells, t: Teacher, c: string, remaining: nat, days: seq<Day>): (r: Cells)
    requires WellShaped(cells)
    ensures WellShaped(r)
    decreases remaining + |days|
  {
    if remaining == 0 || days == [] then cells
    else
      var sorted := SortByLoad(days, Loads(cells, t.name));
      var day := sorted[0];
      if DayLoad(cells, day, t.name) >= MaxPerDay(t) then
        FillClass(cells, t, c, remaining, sorted[1..])
      else
        var free := FreeSlots(cells, day, t.availableTimeSlots, t.name, c);
        if free == [] then
          FillClass(cells, t, c, remaining, sorted[1..])
        else
          FillClass(PushCell(cells, day, Earliest(free), EntryFor(t, c)), t, c, remaining - 1, sorted)
  }

  /** The second classrooms.forEach of teacher t, over the classrooms cs in order. */
  function AllocClasses(cells: Cells, t: Teacher, cs: seq<string>): (r: Cells)
    requires WellShaped(cells) && forall c :: c in cs ==> c in t.classrooms
    ensures WellShaped(r)
  {
    if cs == [] then cells
    else
      var c := cs[|cs| - 1];
      FillClass(AllocClasses(cells, t, cs[..|cs| - 1]), t, c, Target(t, c), t.availableDays)
  }

  /** teachers.forEach over the teachers ts in order. */
  function AllocTeachers(cells: Cells, ts: seq<Teacher>): (r: Cells)
    requires WellShaped(cells)
    ensures WellShaped(r)
  {
    if ts == [] then cells
    else
      var t := ts[|ts| - 1];
      AllocClasses(AllocTeachers(cells, ts[..|ts| - 1]), t, t.classrooms)
  }

  /** The grid generateSchedule builds for a roster. */
  function Generate(roster: seq<Teacher>): (r: Cells)
    ensures WellShaped(r)
  {
    AllocTeachers(EmptyCells(), roster)
  }

  // ---------------------------------------------------------------------------
  // generateSchedule

  /** Unfolds one pass of `FillClass` that drops the first candidate day; a step
      for the loop proof of `PlaceClassroom` and the worked examples. */
  lemma FillClassDropsDay(cells: Cells, t: Teacher, c: string, remaining: nat, days: seq<Day>, sorted: seq<Day>)
    requires WellShaped(cells) && remaining > 0 && days != []
    requires sorted == SortByLoad(days, Loads(cells, t.name))
    requires DayLoad(cells, sorted[0], t.name) >= MaxPerDay(t) ||
             FreeSlots(cells, sorted[0], t.availableTimeSlots, t.name, c) == []
    ensures FillClass(cells, t, c, remaining, days) == FillClass(cells, t, c, remaining, sorted[1..])
  {
  }

  /** Unfolds one pass of `FillClass` that places an entry; a step for the loop
      proof of `PlaceClassroom` and the worked examples. */
  lemma FillClassPlaces(cells: Cells, t: Teacher, c: string, remaining: nat, days: seq<Day>, sorted: seq<Day>, free: seq<Slot>)
    requires WellShaped(cells) && remaining > 0 && days != []
    requires sorted == SortByLoad(days, Loads(cells, t.name))
    requires DayLoad(cells, sorted[0], t.name) < MaxPerDay(t)
    requires free == FreeSlots(cells, sorted[0], t.availableTimeSlots, t.name, c) && free != []
    ensures FillClass(cells, t, c, remaining, days) ==
            FillClass(PushCell(cells, sorted[0], Earliest(free), EntryFor(t, c)), t, c, remaining - 1, sorted)
  {
  }

  /** The while loop of one (teacher, classroom) pair: places up to `hours` entries. */
  method PlaceClassroom(schedule: Schedule, teacher: Teacher, classroom: string, hours: nat)
    requires schedule.Valid()
    modifies schedule
    ensures schedule.Valid()
    ensures schedule.cells == FillClass(old(schedule.cells), teacher, classroom, hours, teacher.availableDays)
  {
    var remainingHoursForClass: nat := hours;
    var availableDays := teacher.availableDays;
    var maxPerDay := MaxPerDay(teacher);
    ghost var goal := FillClass(schedule.cells, teacher, classroom, hours, teacher.availableDays);
    while remainingHoursForClass > 0 && |availableDays| > 0
      invariant schedule.Valid()
      invariant FillClass(schedule.cells, teacher, classroom, remainingHoursForClass, availableDays) == goal
      decreases remainingHoursForClass + |availableDays|
    {
      ghost var cells0, days0 := schedule.cells, availableDays;
      availableDays := SortByLoad(availableDays, Loads(schedule.cells, teacher.name));
      var currentDay := availableDays[0];
      var hoursOnThisDay := DayLoad(schedule.cells, currentDay, teacher.name);
      if hoursOnThisDay >= maxPerDay {
        FillClassDropsDay(cells0, teacher, classroom, remainingHoursForClass, days0, availableDays);
        availableDays := availableDays[1..];
        continue;
      }
      var availableSlots := FreeSlots(schedule.cells, currentDay, teacher.availableTimeSlots, teacher.name, classroom);
      if |availableSlots| == 0 {
        FillClassDropsDay(cells0, teacher, classroom, remainingHoursForClass, days0, availableDays);
        availableDays := availableDays[1..];
        continue;
      }
      FillClassPlaces(cells0, teacher, classroom, remainingHoursForClass, days0, availableDays, availableSlots);
      var slotToAssign := Earliest(availableSlots);
      schedule.Push(currentDay, slotToAssign, EntryFor(teacher, classroom));
      remainingHoursForClass := remainingHoursForClass - 1;
      // The source breaks out when the count reaches zero; the loop guard does the same.
    }
  }

  /** The body of teachers.forEach: computes the classroom targets, then fills
      each classroom in order. */
  method PlaceTeacher(schedule: Schedule, teacher: Teacher)
    requires schedule.Valid()
    modifies schedule
    ensures schedule.Valid()
    ensures schedule.cells == AllocClasses(old(schedule.cells), teacher, teacher.classrooms)
  {
    var classroomHoursCounts := ClassroomTargets(teacher);
    assert teacher.classrooms[..0] == [];
    for j := 0 to |teacher.classrooms|
      invariant schedule.Valid()
      invariant schedule.cells == AllocClasses(old(schedule.cells), teacher, teacher.classrooms[..j])
    {
      var classroom := teacher.classrooms[j];
      PlaceClassroom(schedule, teacher, classroom, classroomHoursCounts[classroom]);
      assert teacher.classrooms[..j + 1][..j] == teacher.classrooms[..j];
    }
    assert teacher.classrooms[..|teacher.classrooms|] == teacher.classrooms;
  }

  /** generateSchedule: a new grid with every cell empty, then every teacher in
      roster order. */
  method GenerateSchedule(teachers: seq<Teacher>) returns (schedule: Schedule)
    ensures fresh(schedule) && schedule.Valid()
    ensures schedule.cells == Generate(teachers)
  {
    schedule := new Schedule();
    assert teachers[..0] == [];
    for i := 0 to |teachers|
      invariant schedule.Valid()
      invariant schedule.cells == AllocTeachers(EmptyCells(), teachers[..i])
    {
      PlaceTeacher(schedule, teachers[i]);
      assert teachers[..i + 1][..i] == teachers[..i];
    }
    assert teachers[..|teachers|] == teachers;
  }
}
