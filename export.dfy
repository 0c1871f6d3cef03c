/** The tabular export (exportSchedule): a row of day names, a row of hour
    numbers, and one row per teacher giving, for every day and slot, the
    classroom of that teacher's first entry in the cell; each row is joined with
    commas into one line of the text. */
module Export {
  import opened Timetable

  /** One field of a row: a text, or the hour number written by the second header. */
  datatype Field = Text(text: string) | Number(value: nat)

  /** The teacher label plus one column per (day, slot). */
  const ColumnCount := 1 + DayCount * SlotCount

  /** The column of (d, s): days left to right, slots in order within a day. */
  function Column(d: Day, s: Slot): (k: nat)
    ensures 1 <= k < ColumnCount
  {
    1 + d * SlotCount + s
  }

  /** Every data column belongs to exactly one (day, slot). */
  lemma ColumnsCoverRow(k: nat)
    requires 1 <= k < ColumnCount
    ensures exists d: Day, s: Slot :: Column(d, s) == k
    ensures forall d: Day, s: Slot, d': Day, s': Slot :: Column(d, s) == k && Column(d', s') == k ==> d == d' && s == s'
  {
    var d: Day := (k - 1) / SlotCount;
    var s: Slot := (k - 1) % SlotCount;
    assert Column(d, s) == k;
  }

  predicate IsDayHeader(row: seq<Field>) {
    |row| == ColumnCount && row[0] == Text("") &&
    forall d: Day, s: Slot :: row[Column(d, s)] == if s == 0 then Text(DayNames[d]) else Text("")
  }

  predicate IsHourHeader(row: seq<Field>) {
    |row| == ColumnCount && row[0] == Text("Insegnante") &&
    forall d: Day, s: Slot :: row[Column(d, s)] == Number(s + 1)
  }

  /** `cell.find(e => e.teacher === name)` */
  function FindEntry(cell: seq<Entry>, name: string): (r: Option<Entry>)
    ensures r.None? <==> forall k :: 0 <= k < |cell| ==> cell[k].teacher != name
    ensures r.Some? ==> exists k :: (0 <= k < |cell| && cell[k] == r.value &&
      r.value.teacher == name && forall j :: 0 <= j < k ==> cell[j].teacher != name)
  {
    if cell == [] then None
    else if cell[0].teacher == name then Some(cell[0])
    else
      var r := FindEntry(cell[1..], name);
      assert forall k :: 1 <= k < |cell| ==> cell[k] == cell[1..][k - 1];
      r
  }

  /** `entry ? entry.classroom : ''` */
  function ClassroomOf(cell: seq<Entry>, name: string): (r: string)
    ensures r != "" ==> exists k :: 0 <= k < |cell| && cell[k].teacher == name && cell[k].classroom == r
    ensures (forall k :: 0 <= k < |cell| ==> cell[k].teacher != name) ==> r == ""
  {
    match FindEntry(cell, name)
    case None => ""
    case Some(e) => e.classroom
  }

  predicate IsTeacherRow(row: seq<Field>, name: string, cells: Cells)
    requires WellShaped(cells)
  {
    |row| == ColumnCount && row[0] == Text(name) &&
    forall d: Day, s: Slot :: row[Column(d, s)] == Text(ClassroomOf(cells[d][s], name))
  }

  /** dayHeaders: an empty corner, then each day's name over its first slot and
      empty fields over the other seven. */
  method DayHeaderRow() returns (row: seq<Field>)
    ensures IsDayHeader(row)
  {
    row := [Text("")];
    for d := 0 to DayCount
      invariant |row| == 1 + d * SlotCount && row[0] == Text("")
      invariant forall d': Day, s: Slot :: d' < d ==>
        row[Column(d', s)] == if s == 0 then Text(DayNames[d']) else Text("")
    {
      row := row + [Text(DayNames[d])];
      for i := 0 to SlotCount - 1
        invariant |row| == 1 + d * SlotCount + 1 + i && row[0] == Text("")
        invariant row[Column(d, 0)] == Text(DayNames[d])
        invariant forall s: Slot :: 1 <= s <= i ==> row[Column(d, s)] == Text("")
        invariant forall d': Day, s: Slot :: d' < d ==>
          row[Column(d', s)] == if s == 0 then Text(DayNames[d']) else Text("")
      {
        row := row + [Text("")];
      }
    }
  }

  /** hourHeaders: the teacher label, then 1 to 8 under every day. */
  method HourHeaderRow() returns (row: seq<Field>)
    ensures IsHourHeader(row)
  {
    row := [Text("Insegnante")];
    for d := 0 to DayCount
      invariant |row| == 1 + d * SlotCount && row[0] == Text("Insegnante")
      invariant forall d': Day, s: Slot :: d' < d ==> row[Column(d', s)] == Number(s + 1)
    {
      for index := 0 to SlotCount
        invariant |row| == 1 + d * SlotCount + index && row[0] == Text("Insegnante")
        invariant forall s: Slot :: s < index ==> row[Column(d, s)] == Number(s + 1)
        invariant forall d': Day, s: Slot :: d' < d ==> row[Column(d', s)] == Number(s + 1)
      {
        row := row + [Number(index + 1)];
      }
    }
  }

  /** One teacher's row: the name, then the classroom of the teacher's first entry
      in each cell, or an empty field. */
  method TeacherRow(name: string, cells: Cells) returns (row: seq<Field>)
    requires WellShaped(cells)
    ensures IsTeacherRow(row, name, cells)
  {
    row := [Text(name)];
    for d := 0 to DayCount
      invariant |row| == 1 + d * SlotCount && row[0] == Text(name)
      invariant forall d': Day, s: Slot :: d' < d ==> row[Column(d', s)] == Text(ClassroomOf(cells[d'][s], name))
    {
      for slot := 0 to SlotCount
        invariant |row| == 1 + d * SlotCount + slot && row[0] == Text(name)
        invariant forall s: Slot :: s < slot ==> row[Column(d, s)] == Text(ClassroomOf(cells[d][s], name))
        invariant forall d': Day, s: Slot :: d' < d ==> row[Column(d', s)] == Text(ClassroomOf(cells[d'][s], name))
      {
        var entry := FindEntry(cells[d][slot], name);
        row := row + [Text(if entry.Some? then entry.value.classroom else "")];
      }
    }
  }

  // ---------------------------------------------------------------------------
  // The text

  /** The number a string of decimal digits spells, most significant first. */
  function DigitsValue(r: string): int {
    if r == [] then 0 else 10 * DigitsValue(r[..|r| - 1]) + (r[|r| - 1] as int - '0' as int)
  }

  /** The decimal digits of n, as `String(n)` writes them. */
  function Decimal(n: nat): (r: string)
    ensures |r| > 0 && forall k :: 0 <= k < |r| ==> '0' <= r[k] <= '9'
    ensures DigitsValue(r) == n
    ensures n < 10 ==> r == [('0' as int + n) as char]
    ensures n >= 10 ==> r[0] != '0'
  {
    var digit := ['0' + (n % 10) as char];
    if n < 10 then digit
    else
      var r := Decimal(n / 10) + digit;
      assert r[..|r| - 1] == Decimal(n / 10);
      r
  }

  function Render(f: Field): string {
    match f
    case Text(t) => t
    case Number(n) => Decimal(n)
  }

  /** `row.join(',')` */
  function JoinFields(row: seq<Field>): string {
    if row == [] then ""
    else if |row| == 1 then Render(row[0])
    else Render(row[0]) + "," + JoinFields(row[1..])
  }

  /** The text of a table: every row joined with commas and ended by a newline. */
  function CsvText(table: seq<seq<Field>>): string {
    if table == [] then "" else JoinFields(table[0]) + "\n" + CsvText(table[1..])
  }

  function Occurrences(s: string, ch: char): nat {
    if s == [] then 0 else (if s[0] == ch then 1 else 0) + Occurrences(s[1..], ch)
  }

  lemma {:induction false} OccurrencesAppend(a: string, b: string, ch: char)
    ensures Occurrences(a + b, ch) == Occurrences(a, ch) + Occurrences(b, ch)
  {
    if a != [] {
      assert (a + b)[1..] == a[1..] + b;
      OccurrencesAppend(a[1..], b, ch);
    } else {
      assert a + b == b;
    }
  }

  lemma {:induction false} DecimalHasNo(n: nat, ch: char)
    requires !('0' <= ch <= '9')
    ensures Occurrences(Decimal(n), ch) == 0
  {
    var digit := ['0' + (n % 10) as char];
    assert Occurrences(digit, ch) == 0;
    if n >= 10 {
      DecimalHasNo(n / 10, ch);
      OccurrencesAppend(Decimal(n / 10), digit, ch);
    }
  }

  /** No text field contains ch. */
  predicate FreeOf(row: seq<Field>, ch: char) {
    forall k :: 0 <= k < |row| && row[k].Text? ==> ch !in row[k].text
  }

  lemma {:induction false} TextHasNo(t: string, ch: char)
    requires ch !in t
    ensures Occurrences(t, ch) == 0
  {
    if t != [] {
      TextHasNo(t[1..], ch);
    }
  }

  /** When no text field holds a comma, a joined row has one comma fewer than it
      has fields, so it reads back as the same number of columns; a classroom or
      name holding a comma shifts every later column. */
  lemma {:induction false} JoinedRowCommas(row: seq<Field>)
    requires |row| > 0 && FreeOf(row, ',')
    ensures Occurrences(JoinFields(row), ',') == |row| - 1
  {
    var first := Render(row[0]);
    if row[0].Text? {
      TextHasNo(row[0].text, ',');
    } else {
      DecimalHasNo(row[0].value, ',');
    }
    if |row| > 1 {
      JoinedRowCommas(row[1..]);
      OccurrencesAppend(first, ",", ',');
      OccurrencesAppend(first + ",", JoinFields(row[1..]), ',');
    }
  }

  /** Rows 2 to n+1 of the table are the rows of the first n teachers, in order. */
  predicate TeacherRows(table: seq<seq<Field>>, teachers: seq<Teacher>, cells: Cells, n: nat)
    requires n > 0 ==> WellShaped(cells)
  {
    n <= |teachers| && |table| == 2 + n &&
    forall j :: 0 <= j < n ==> IsTeacherRow(table[2 + j], teachers[j].name, cells)
  }

  lemma TeacherRowsExtend(table: seq<seq<Field>>, teachers: seq<Teacher>, cells: Cells, n: nat, row: seq<Field>)
    requires WellShaped(cells) && TeacherRows(table, teachers, cells, n) && n < |teachers|
    requires IsTeacherRow(row, teachers[n].name, cells)
    ensures TeacherRows(table + [row], teachers, cells, n + 1)
  {
    var t := table + [row];
    forall j | 0 <= j < n + 1 ensures IsTeacherRow(t[2 + j], teachers[j].name, cells) {
      if j < n {
        assert t[2 + j] == table[2 + j];
      }
    }
  }

  /** The whole export: the two header rows, then one row per teacher in order,
      and the text that holds them. The grid is read only for a teacher's row, so
      with no teachers any grid, even one never generated, gives the headers. */
  method ExportSchedule(teachers: seq<Teacher>, cells: Cells) returns (table: seq<seq<Field>>, csvContent: string)
    requires teachers != [] ==> WellShaped(cells)
    ensures |table| == 2 + |teachers|
    ensures IsDayHeader(table[0]) && IsHourHeader(table[1])
    ensures TeacherRows(table, teachers, cells, |teachers|)
    ensures csvContent == CsvText(table)
  {
    var dayHeaders := DayHeaderRow();
    var hourHeaders := HourHeaderRow();
    table := [dayHeaders, hourHeaders];
    csvContent := JoinFields(dayHeaders) + "\n" + JoinFields(hourHeaders) + "\n";
    CsvTextAppend([], dayHeaders);
    CsvTextAppend([dayHeaders], hourHeaders);
    assert [] + [dayHeaders] == [dayHeaders];
    for i := 0 to |teachers|
      invariant |table| == 2 + i && table[0] == dayHeaders && table[1] == hourHeaders
      invariant TeacherRows(table, teachers, cells, i)
      invariant csvContent == CsvText(table)
    {
      var row := TeacherRow(teachers[i].name, cells);
      CsvTextAppend(table, row);
      TeacherRowsExtend(table, teachers, cells, i, row);
      table := table + [row];
      csvContent := csvContent + JoinFields(row) + "\n";
    }
  }

  lemma {:induction false} CsvTextAppend(table: seq<seq<Field>>, row: seq<Field>)
    ensures CsvText(table + [row]) == CsvText(table) + JoinFields(row) + "\n"
  {
    if table == [] {
      assert [] + [row] == [row];
      assert [row][1..] == [];
    } else {
      assert (table + [row])[1..] == table[1..] + [row];
      CsvTextAppend(table[1..], row);
    }
  }

  /** With no newline in any text field, the text has one line per row. */
  lemma {:induction false} CsvTextLines(table: seq<seq<Field>>)
    requires forall i :: 0 <= i < |table| ==> FreeOf(table[i], '\n')
    ensures Occurrences(CsvText(table), '\n') == |table|
  {
    if table != [] {
      JoinedRowHasNo(table[0], '\n');
      CsvTextLines(table[1..]);
      OccurrencesAppend(JoinFields(table[0]), "\n", '\n');
      OccurrencesAppend(JoinFields(table[0]) + "\n", CsvText(table[1..]), '\n');
    }
  }

  lemma {:induction false} JoinedRowHasNo(row: seq<Field>, ch: char)
    requires FreeOf(row, ch) && ch != ',' && !('0' <= ch <= '9')
    ensures Occurrences(JoinFields(row), ch) == 0
  {
    if row != [] {
      var first := Render(row[0]);
      if row[0].Text? {
        TextHasNo(row[0].text, ch);
      } else {
        DecimalHasNo(row[0].value, ch);
      }
      if |row| > 1 {
        JoinedRowHasNo(row[1..], ch);
        OccurrencesAppend(first, ",", ch);
        OccurrencesAppend(first + ",", JoinFields(row[1..]), ch);
      }
    }
  }
}
