/** The manual move (handlePopupSave): the entry the user clicked is spliced out
    of its cell by index and an entry with the event's teacher, subject and
    classroom, copied from the clicked entry, is appended to the chosen
    destination cell. Nothing is checked. */
module Editor {
  import opened Timetable

  /** The popup's state: the clicked entry's fields, where it was clicked, and the
      destination chosen. The popup only shows the fields; the day and the slot
      are the only ones the user can change. */
  datatype EditingEvent = EditingEvent(
    teacher: string,
    subject: string,
    classroom: string,
    originalDay: Day,
    originalSlot: Slot,
    originalIndex: nat,
    newDay: Day,
    newSlot: Slot)

  /** The entry appended at the destination. */
  function Moved(ev: EditingEvent): Entry {
    Entry(ev.teacher, ev.subject, ev.classroom)
  }

  predicate SameCell(ev: EditingEvent) {
    ev.originalDay == ev.newDay && ev.originalSlot == ev.newSlot
  }

  /** handleEventClick: the event for entry e at index i of (d, s), with the
      destination starting at the origin. */
  function ClickEvent(e: Entry, d: Day, s: Slot, i: nat): (ev: EditingEvent)
    ensures Moved(ev) == e
    ensures ev.originalDay == d && ev.originalSlot == s && ev.originalIndex == i
    ensures SameCell(ev)
  {
    EditingEvent(e.teacher, e.subject, e.classroom, d, s, i, d, s)
  }

  /** The popup's day and slot selects: only the destination changes. */
  function ChooseDestination(ev: EditingEvent, d: Day, s: Slot): (r: EditingEvent)
    ensures Moved(r) == Moved(ev) && r.newDay == d && r.newSlot == s
    ensures r.originalDay == ev.originalDay && r.originalSlot == ev.originalSlot && r.originalIndex == ev.originalIndex
  {
    ev.(newDay := d, newSlot := s)
  }

  /** The event still describes the entry at its origin: the index is inside the
      cell and the entry there has the event's fields. */
  predicate AsClicked(cells: Cells, ev: EditingEvent)
    requires WellShaped(cells)
  {
    ev.originalIndex < |cells[ev.originalDay][ev.originalSlot]| &&
    cells[ev.originalDay][ev.originalSlot][ev.originalIndex] == Moved(ev)
  }

  /** The grid after the move: splice at the origin, then push at the destination. */
  function MoveCells(cells: Cells, ev: EditingEvent): (r: Cells)
    requires WellShaped(cells)
    ensures WellShaped(r)
    ensures !SameCell(ev) ==>
      r[ev.originalDay][ev.originalSlot] == Without(cells[ev.originalDay][ev.originalSlot], ev.originalIndex) &&
      r[ev.newDay][ev.newSlot] == cells[ev.newDay][ev.newSlot] + [Moved(ev)]
    ensures SameCell(ev) ==>
      r[ev.newDay][ev.newSlot] == Without(cells[ev.newDay][ev.newSlot], ev.originalIndex) + [Moved(ev)]
    ensures forall d: Day, s: Slot ::
      (d != ev.originalDay || s != ev.originalSlot) && (d != ev.newDay || s != ev.newSlot) ==>
        r[d][s] == cells[d][s]
  {
    PushCell(SpliceCell(cells, ev.originalDay, ev.originalSlot, ev.originalIndex), ev.newDay, ev.newSlot, Moved(ev))
  }

  /** handlePopupSave: does nothing without an editing event; otherwise moves it
      in the schedule itself (the shallow copy shares the cell lists). */
  method HandlePopupSave(schedule: Schedule, editing: Option<EditingEvent>)
    requires schedule.Valid()
    modifies schedule
    ensures schedule.Valid()
    ensures editing.None? ==> schedule.cells == old(schedule.cells)
    ensures editing.Some? ==> schedule.cells == MoveCells(old(schedule.cells), editing.value)
  {
    if editing.None? {
      return;
    }
    var ev := editing.value;
    schedule.Splice(ev.originalDay, ev.originalSlot, ev.originalIndex);
    schedule.Push(ev.newDay, ev.newSlot, Moved(ev));
  }

  /** When the index points at an entry, the move trades that entry for the moved
      one in every count. */
  lemma MoveTally(cells: Cells, ev: EditingEvent, q: Query)
    requires WellShaped(cells) && ev.originalIndex < |cells[ev.originalDay][ev.originalSlot]|
    ensures GridTally(MoveCells(cells, ev), q) + Indicator(cells[ev.originalDay][ev.originalSlot][ev.originalIndex], q) ==
            GridTally(cells, q) + Indicator(Moved(ev), q)
  {
    SpliceTally(cells, ev.originalDay, ev.originalSlot, ev.originalIndex, q);
    PushTally(SpliceCell(cells, ev.originalDay, ev.originalSlot, ev.originalIndex), ev.newDay, ev.newSlot, Moved(ev), q);
  }

  /** A move whose index points at an entry keeps the total number of entries, and
      a move of the entry the event was made from keeps every count, per teacher
      and per classroom. */
  lemma MovePreservesTallies(cells: Cells, ev: EditingEvent)
    requires WellShaped(cells) && ev.originalIndex < |cells[ev.originalDay][ev.originalSlot]|
    ensures GridTally(MoveCells(cells, ev), AnyEntry) == GridTally(cells, AnyEntry)
    ensures AsClicked(cells, ev) ==> forall q :: GridTally(MoveCells(cells, ev), q) == GridTally(cells, q)
  {
    MoveTally(cells, ev, AnyEntry);
    if AsClicked(cells, ev) {
      forall q ensures GridTally(MoveCells(cells, ev), q) == GridTally(cells, q) {
        MoveTally(cells, ev, q);
      }
    }
  }

  /** A stale index past the end of the origin cell removes nothing, so the move
      only adds an entry. */
  lemma StaleIndexOnlyAdds(cells: Cells, ev: EditingEvent)
    requires WellShaped(cells) && ev.originalIndex >= |cells[ev.originalDay][ev.originalSlot]|
    ensures MoveCells(cells, ev) == PushCell(cells, ev.newDay, ev.newSlot, Moved(ev))
    ensures GridTally(MoveCells(cells, ev), AnyEntry) == GridTally(cells, AnyEntry) + 1
  {
    var row := cells[ev.originalDay];
    assert row[ev.originalSlot := row[ev.originalSlot]] == row;
    assert cells[ev.originalDay := row] == cells;
    assert SpliceCell(cells, ev.originalDay, ev.originalSlot, ev.originalIndex) == cells;
    PushTally(cells, ev.newDay, ev.newSlot, Moved(ev), AnyEntry);
  }

  /** Clicking an entry, choosing any destination and saving keeps every count. */
  lemma ClickedMoveKeepsCounts(cells: Cells, d: Day, s: Slot, i: nat, nd: Day, ns: Slot, q: Query)
    requires WellShaped(cells) && i < |cells[d][s]|
    ensures GridTally(MoveCells(cells, ChooseDestination(ClickEvent(cells[d][s][i], d, s, i), nd, ns)), q) ==
            GridTally(cells, q)
  {
    var ev := ChooseDestination(ClickEvent(cells[d][s][i], d, s, i), nd, ns);
    assert AsClicked(cells, ev);
    MovePreservesTallies(cells, ev);
  }

  const MathIn101 := Entry("Ann", "Math", "101")
  const MathIn102 := Entry("Ann", "Math", "102")
  /** Ann teaches Monday 8-9 in 101 and Monday 9-10 in 102. */
  const TwoLessons := PushCell(PushCell(EmptyCells(), 0, 0, MathIn101), 0, 1, MathIn102)
  /** Moving the 9-10 lesson onto Monday 8-9. */
  const OntoBusySlot := EditingEvent("Ann", "Math", "102", 0, 1, 0, 0, 0)

  /** The move has no conflict check: a grid without conflicts can gain one. */
  lemma MoveCanDoubleBook()
    ensures NoConflicts(TwoLessons)
    ensures !NoConflicts(MoveCells(TwoLessons, OntoBusySlot))
  {
    var c1: Cells := PushCell(EmptyCells(), 0, 0, MathIn101);
    var c: Cells := TwoLessons;
    assert forall d: Day, s: Slot :: |c1[d][s]| <= 1;
    assert forall d: Day, s: Slot :: |c[d][s]| <= 1;
    assert c[0][0] == [MathIn101];
    var r: Cells := MoveCells(c, OntoBusySlot);
    assert r[0][0] == [MathIn101, MathIn102];
    assert r[0][0][0].teacher == r[0][0][1].teacher;
  }
}
