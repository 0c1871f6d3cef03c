/** The weekly timetable: the fixed 5-day by 8-slot week, the entries placed in
    its cells, the teacher records the allocator reads, counting of entries, and
    the schedule object whose cell lists are pushed to and spliced. */
module Timetable {

  const DayCount := 5
  const SlotCount := 8

  /** Index into DayNames, Monday first. */
  type Day = d: nat | d < 5
  /** Index into the day's hour slots; slot i runs from 8+i o'clock to 9+i. */
  type Slot = s: nat | s < 8

  const DayNames: seq<string> :=
    ["Luned\U{ec}", "Marted\U{ec}", "Mercoled\U{ec}", "Gioved\U{ec}", "Venerd\U{ec}"]

  /** The hour a slot starts at, as read from its label ("8:00-9:00" starts at 8). */
  function StartHour(s: Slot): nat { 8 + s }

  datatype Option<T> = None | Some(value: T)

  /** One lesson placed in a cell. */
  datatype Entry = Entry(teacher: string, subject: string, classroom: string)

  /** A teacher record with its text fields already parsed: `subject` is the first
      listed subject, trimmed; `classrooms` the comma-separated preferred classrooms,
      trimmed, in order; `maxHoursPerDay` is 0 when the field was left empty. */
  datatype Teacher = Teacher(
    name: string,
    hoursPerWeek: nat,
    subject: string,
    classrooms: seq<string>,
    classroomHours: map<string, nat>,
    maxHoursPerDay: nat,
    availableDays: seq<Day>,
    availableTimeSlots: seq<Slot>)

  /** The slots of one day, each an ordered list of entries. */
  type Row = seq<seq<Entry>>
  /** Day -> slot -> entries. */
  type Cells = seq<Row>

  predicate WellShaped(cells: Cells) {
    |cells| == DayCount && forall d :: 0 <= d < |cells| ==> |cells[d]| == SlotCount
  }

  /** The grid every generation starts from: all 5 days, all 8 slots, no entries. */
  function EmptyCells(): (c: Cells)
    ensures WellShaped(c)
    ensures forall d: Day, s: Slot :: c[d][s] == []
  {
    seq(DayCount, _ => seq(SlotCount, _ => []))
  }

  /** The cells after `e` is appended to the list at (d, s). */
  function PushCell(cells: Cells, d: Day, s: Slot, e: Entry): (r: Cells)
    requires WellShaped(cells)
    ensures WellShaped(r)
    ensures r[d][s] == cells[d][s] + [e]
    ensures forall d': Day, s': Slot :: (d' != d || s' != s) ==> r[d'][s'] == cells[d'][s']
  {
    cells[d := cells[d][s := cells[d][s] + [e]]]
  }

  /** A list without its element at index i; unchanged when i is past the end. */
  function Without(cell: seq<Entry>, i: nat): (r: seq<Entry>)
    ensures i < |cell| ==> |r| == |cell| - 1
    ensures i < |cell| ==> forall k :: 0 <= k < |r| ==> r[k] == if k < i then cell[k] else cell[k + 1]
    ensures i >= |cell| ==> r == cell
  {
    if i < |cell| then cell[..i] + cell[i + 1..] else cell
  }

  /** The cells after the entry at index i of (d, s) is spliced out. */
  function SpliceCell(cells: Cells, d: Day, s: Slot, i: nat): (r: Cells)
    requires WellShaped(cells)
    ensures WellShaped(r)
    ensures r[d][s] == Without(cells[d][s], i)
    ensures forall d': Day, s': Slot :: (d' != d || s' != s) ==> r[d'][s'] == cells[d'][s']
  {
    cells[d := cells[d][s := Without(cells[d][s], i)]]
  }

  /** No two entries of one cell share a teacher, and none share a classroom. */
  predicate NoConflicts(cells: Cells)
    requires WellShaped(cells)
  {
    forall d: Day, s: Slot, i, j :: 0 <= i < j < |cells[d][s]| ==>
      cells[d][s][i].teacher != cells[d][s][j].teacher &&
      cells[d][s][i].classroom != cells[d][s][j].classroom
  }

  // ---------------------------------------------------------------------------
  // Counting entries

  /** Which entries to count: all of them, a teacher's, or a teacher's in one classroom. */
  datatype Query = AnyEntry | OfTeacher(name: string) | OfTeacherIn(name: string, classroom: string)

  predicate Matches(e: Entry, q: Query) {
    match q
    case AnyEntry => true
    case OfTeacher(n) => e.teacher == n
    case OfTeacherIn(n, c) => e.teacher == n && e.classroom == c
  }

  function Indicator(e: Entry, q: Query): nat { if Matches(e, q) then 1 else 0 }

  function CellTally(cell: seq<Entry>, q: Query): nat {
    if cell == [] then 0 else Indicator(cell[0], q) + CellTally(cell[1..], q)
  }

  function RowTally(row: Row, q: Query): nat {
    if row == [] then 0 else CellTally(row[0], q) + RowTally(row[1..], q)
  }

  function GridTally(cells: Cells, q: Query): nat {
    if cells == [] then 0 else RowTally(cells[0], q) + GridTally(cells[1..], q)
  }

  /** How many hours `name` teaches on day d: entries with that teacher across the
      day's slots, whatever the classroom. */
  function DayLoad(cells: Cells, d: Day, name: string): nat
    requires WellShaped(cells)
  {
    RowTally(cells[d], OfTeacher(name))
  }

  lemma {:induction false} CellTallyAppend(a: seq<Entry>, b: seq<Entry>, q: Query)
    ensures CellTally(a + b, q) == CellTally(a, q) + CellTally(b, q)
  {
    if a != [] {
      assert (a + b)[1..] == a[1..] + b;
      CellTallyAppend(a[1..], b, q);
    } else {
      assert a + b == b;
    }
  }

  lemma CellTallyWithout(cell: seq<Entry>, i: nat, q: Query)
    requires i < |cell|
    ensures CellTally(Without(cell, i), q) + Indicator(cell[i], q) == CellTally(cell, q)
  {
    assert cell == cell[..i] + ([cell[i]] + cell[i + 1..]);
    CellTallyAppend(cell[..i], [cell[i]] + cell[i + 1..], q);
    CellTallyAppend([cell[i]], cell[i + 1..], q);
    CellTallyAppend(cell[..i], cell[i + 1..], q);
  }

  lemma {:induction false} RowTallyUpdate(row: Row, s: nat, x: seq<Entry>, q: Query)
    requires s < |row|
    ensures RowTally(row[s := x], q) + CellTally(row[s], q) == RowTally(row, q) + CellTally(x, q)
  {
    if s > 0 {
      assert row[s := x][1..] == row[1..][s - 1 := x];
      RowTallyUpdate(row[1..], s - 1, x, q);
    } else {
      assert row[s := x][1..] == row[1..];
    }
  }

  lemma {:induction false} GridTallyUpdate(cells: Cells, d: nat, r: Row, q: Query)
    requires d < |cells|
    ensures GridTally(cells[d := r], q) + RowTally(cells[d], q) == GridTally(cells, q) + RowTally(r, q)
  {
    if d > 0 {
      assert cells[d := r][1..] == cells[1..][d - 1 := r];
      GridTallyUpdate(cells[1..], d - 1, r, q);
    } else {
      assert cells[d := r][1..] == cells[1..];
    }
  }

  /** Pushing one entry adds one to exactly the counts it matches. */
  lemma PushTally(cells: Cells, d: Day, s: Slot, e: Entry, q: Query)
    requires WellShaped(cells)
    ensures GridTally(PushCell(cells, d, s, e), q) == GridTally(cells, q) + Indicator(e, q)
    ensures forall d': Day ::
      RowTally(PushCell(cells, d, s, e)[d'], q) == RowTally(cells[d'], q) + (if d' == d then Indicator(e, q) else 0)
  {
    var cell := cells[d][s];
    CellTallyAppend(cell, [e], q);
    assert CellTally([e], q) == Indicator(e, q);
    RowTallyUpdate(cells[d], s, cell + [e], q);
    GridTallyUpdate(cells, d, cells[d][s := cell + [e]], q);
  }

  /** Splicing out an existing entry removes one from exactly the counts it matches. */
  lemma SpliceTally(cells: Cells, d: Day, s: Slot, i: nat, q: Query)
    requires WellShaped(cells) && i < |cells[d][s]|
    ensures GridTally(SpliceCell(cells, d, s, i), q) + Indicator(cells[d][s][i], q) == GridTally(cells, q)
  {
    var cell := cells[d][s];
    CellTallyWithout(cell, i, q);
    RowTallyUpdate(cells[d], s, Without(cell, i), q);
    GridTallyUpdate(cells, d, cells[d][s := Without(cell, i)], q);
  }

  /** A teacher's load changes only on the day an entry of theirs is pushed to, by one. */
  lemma PushDayLoad(cells: Cells, d: Day, s: Slot, e: Entry, d': Day, name: string)
    requires WellShaped(cells)
    ensures DayLoad(PushCell(cells, d, s, e), d', name) ==
            DayLoad(cells, d', name) + (if d' == d && e.teacher == name then 1 else 0)
  {
    PushTally(cells, d, s, e, OfTeacher(name));
  }

  lemma {:induction false} EmptyRowTally(row: Row, q: Query)
    requires forall k :: 0 <= k < |row| ==> row[k] == []
    ensures RowTally(row, q) == 0
  {
    if row != [] {
      EmptyRowTally(row[1..], q);
    }
  }

  /** The empty grid holds nothing to count. */
  lemma {:induction false} EmptyGridTally(cells: Cells, q: Query)
    requires forall d :: 0 <= d < |cells| ==> forall k :: 0 <= k < |cells[d]| ==> cells[d][k] == []
    ensures GridTally(cells, q) == 0
  {
    if cells != [] {
      EmptyRowTally(cells[0], q);
      EmptyGridTally(cells[1..], q);
    }
  }

  lemma EmptyCellsCountNothing(q: Query)
    ensures GridTally(EmptyCells(), q) == 0
    ensures forall d: Day :: RowTally(EmptyCells()[d], q) == 0
  {
    var c := EmptyCells();
    forall d | 0 <= d < |c| ensures forall k :: 0 <= k < |c[d]| ==> c[d][k] == [] {
      forall k | 0 <= k < |c[d]| ensures c[d][k] == [] {
        assert c[d][k] == [];
      }
    }
    EmptyGridTally(c, q);
    forall d: Day ensures RowTally(c[d], q) == 0 {
      EmptyRowTally(c[d], q);
    }
  }

  // ---------------------------------------------------------------------------
  // The schedule object

  /** The schedule being built or edited: its cell lists are appended to and
      spliced in place. */
  class Schedule {
    var cells: Cells

    ghost predicate Valid()
      reads this
    {
      WellShaped(cells)
    }

    /** A fresh schedule with every day and slot present and empty. */
    constructor ()
      ensures Valid() && cells == EmptyCells()
      ensures forall d: Day, s: Slot :: cells[d][s] == []
    {
      cells := EmptyCells();
    }

    /** Appends `e` to the list at (d, s). */
    method Push(d: Day, s: Slot, e: Entry)
      requires Valid()
      modifies this
      ensures Valid()
      ensures cells == PushCell(old(cells), d, s, e)
    {
      cells := cells[d := cells[d][s := cells[d][s] + [e]]];
    }

    /** Removes the entry at index i of (d, s); nothing when i is past the end. */
    method Splice(d: Day, s: Slot, i: nat)
      requires Valid()
      modifies this
      ensures Valid()
      ensures cells == SpliceCell(old(cells), d, s, i)
    {
      var cell := cells[d][s];
      if i < |cell| {
        cell := cell[..i] + cell[i + 1..];
      }
      cells := cells[d := cells[d][s := cell]];
    }
  }
}
