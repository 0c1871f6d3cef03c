# Weekly teacher timetable: allocator, move and export

This project models the scheduling core of the teachers' weekly timetable app (`src/App.js`):

- **The week.** It has five days (Lunedì to Venerdì) and eight one-hour slots a day, from 8:00 to 16:00.
- **The grid.** Each (day, slot) cell holds an ordered list of entries: teacher, subject, classroom.
- **The grid as an object.** The `Timetable.Schedule` class owns the grid. Its `Push` and `Splice` methods change a cell's list in place.
- **Grid functions.** `PushCell` and `SpliceCell` on grid values state what those methods do.

The model covers three operations.

1. **`generateSchedule`: the greedy allocator**
   - It rebuilds the grid from empty.
   - For each teacher, it computes an hour target for every preferred classroom. The target is the classroom's explicit hours when they are given and nonzero. Otherwise it is the weekly hours divided by the number of classrooms, rounded up.
   - It then fills each classroom in order, one hour per pass of a `while` loop. Each pass does three things:
     - It stable-sorts the candidate days by the teacher's hours on each day. The sort starts from the order the previous pass left.
     - It drops the first day when that day is at the daily cap or has no free slot.
     - Otherwise it appends the entry to the earliest listed slot where neither the teacher nor the classroom already has an entry.
   - `Allocator.GenerateSchedule` and its two helper methods run this loop on a `Schedule`. They are proved equal to the recursive function `Allocator.FillClass` and the folds `AllocClasses`, `AllocTeachers` and `Generate` built on it.
   - Module `AllocationProperties` proves what the grid built this way satisfies:
     - no double booking;
     - availability;
     - the daily cap;
     - the per-classroom targets.
   - Module `AllocationExamples` works through three concrete rosters.
2. **`handlePopupSave`: the manual move**
   - It splices the clicked entry out of its cell by index.
   - It appends an entry with the clicked entry's teacher, subject and classroom to the destination cell. The popup only lets the user choose the destination day and slot.
   - It performs no conflict check.
3. **`exportSchedule`: the export**
   - It builds a header row of day names and a header row of hour numbers.
   - It builds one row per teacher. For each (day, slot), the row holds the classroom of that teacher's first entry in the cell, or an empty field.
   - It joins every row with commas into one line of text.

Teachers are records whose text fields are already parsed. Days and slots are indices: slot `s` starts at hour `8 + s`. A `maxHoursPerDay` of 0 stands for a missing value, so the daily cap is 8.

**Why the day order carries over.** Take a teacher with 3 hours, a cap of 2, Monday and Tuesday, and slots 8-9, 9-10 and 10-11. Re-sorting the original [Monday, Tuesday] order on every pass would give Monday 8-9, Monday 9-10 and Tuesday 8-9. The code gives Monday 8-9, then Tuesday 8-9, then Tuesday 9-10:

- On the second pass Tuesday is less loaded, so it goes first.
- On the third pass both days carry one hour. The stable in-place sort keeps the order the second pass left, so Tuesday comes first.

`AllocationExamples.TieKeepsPreviousOrder` proves this outcome.

## Model

| member | source | states |
|---|---|---|
| `Timetable.EmptyCells` | src/App.js:240-247 | the new grid has all 5 days and all 8 slots, and every cell is empty |
| `Timetable.EmptyCellsCountNothing` | src/App.js:240-247 | the fresh grid holds no entries at all, and no entries on any day, for every count |
| `Timetable.Schedule.constructor` | src/App.js:240-247 | a new schedule is the well-shaped empty grid |
| `Timetable.PushCell` | src/App.js:321-325 | appending puts the entry last in the chosen cell and leaves every other cell unchanged |
| `Timetable.Schedule.Push` | src/App.js:321-325 | the in-place push leaves the grid equal to `PushCell` of the old grid |
| `Timetable.Without` | src/App.js:210 | `splice(i, 1)` removes exactly the element at i and shifts later ones down, and does nothing when i is past the end |
| `Timetable.SpliceCell` | src/App.js:210 | the origin cell loses the element at the index, and every other cell is unchanged |
| `Timetable.Schedule.Splice` | src/App.js:210 | the in-place splice leaves the grid equal to `SpliceCell` of the old grid |
| `Timetable.PushTally` | src/App.js:321-325 | a push adds one to exactly the counts the new entry matches: total, per teacher, per teacher and classroom, and per day |
| `Timetable.SpliceTally` | src/App.js:210 | splicing out an existing entry subtracts one from exactly the counts it matched |
| `Timetable.DayLoad` | src/App.js:286-287 | a teacher's hours on a day; stated by `EmptyCellsCountNothing` (zero on the fresh grid) and `PushDayLoad` (one more per push of that teacher on that day) |
| `Timetable.PushDayLoad` | src/App.js:286-287 | a teacher's hours on a day change only when that teacher's entry is pushed on that day, and then by one |
| `Allocator.CeilDiv` | src/App.js:261 | the rounded-up quotient r satisfies a <= r*b < a+b |
| `Allocator.Target` | src/App.js:259-263 | a classroom's target is its explicit hours when they are present and nonzero; otherwise it is the smallest r with r * classroom count >= the weekly hours |
| `Allocator.ClassroomTargets` | src/App.js:259-263 | the loop builds a map whose keys are exactly the classrooms, each mapped to its target |
| `Allocator.SortByLoadSorts` | src/App.js:274-280 | the day sort orders the days by ascending load and is a permutation of them |
| `Allocator.SortByLoadIsStable` | src/App.js:274-280 | for every load value, the days with that load keep their relative order after the sort |
| `Allocator.SortHeadIsFirstLeastLoaded` | src/App.js:274-283 | the day tried is least loaded, and no day before it in the current order has a load that is no greater |
| `Allocator.FreeSlotsSpec` | src/App.js:296-303 | a slot is offered exactly when the teacher lists it and neither the teacher nor the classroom has an entry there |
| `Allocator.MaxPerDay` | src/App.js:269 | the daily cap is never zero: an explicit nonzero maximum is used as given, and a missing or zero one becomes 8; `PushKeepsSound` and `GenerateRespectsDailyCap` state how it bounds each day |
| `Allocator.SortByLoad` | src/App.js:274-280 | the sort keeps the number of days; its meaning is stated by `SortByLoadSorts`, `SortByLoadIsStable` and `SortHeadIsFirstLeastLoaded` |
| `Allocator.FreeSlots` | src/App.js:296-303 | the free-slot filter offers no more slots than the teacher lists; which ones is stated by `FreeSlotsSpec` |
| `Allocator.Earliest` | src/App.js:312-319 | the chosen slot is one of the free slots, with the smallest start hour |
| `Allocator.FillClass` | src/App.js:272-333 | one classroom's loop yields a well-shaped grid; what it places is stated by `LoopPass`, `FillClassKeepsSound` and `FillClassTally` below |
| `Allocator.AllocClasses` | src/App.js:266-334 | one teacher's classrooms, filled in order, yield a well-shaped grid; what they add is stated by `AllocClassesKeepsSound`, `AllocClassesLeavesOthers` and `AllocClassesWithinTargets` |
| `Allocator.AllocTeachers` | src/App.js:250-335 | the roster, teacher by teacher, yields a well-shaped grid; stated further by `AllocTeachersSound`, `AllocTeachersLeaveOthers` and `PrefixWithinTarget` |
| `Allocator.Generate` | src/App.js:239-335 | the generated grid has all 5 days and 8 slots; its properties are `GenerateIsSound`, `GenerateHasNoDoubleBooking`, `GenerateRespectsAvailability`, `GenerateRespectsDailyCap` and `GenerateWithinClassTargets` |
| `Allocator.PlaceClassroom` | src/App.js:266-333 | the while loop for one classroom leaves the grid equal to `FillClass` from the old grid, the target and the teacher's days |
| `Allocator.PlaceTeacher` | src/App.js:252-334 | one teacher's body fills the classrooms in the listed order |
| `Allocator.GenerateSchedule` | src/App.js:239-335 | the built schedule is fresh, well shaped and equal to `Generate(teachers)` |
| `AllocationProperties.LoopPass` | src/App.js:272-333 | every pass re-sorts the days and tries the first; it either drops that day because it is at the cap or has no free listed slot, or places one entry on it, under the cap, at the free listed slot with the earliest start; hours plus days strictly decrease, so the loop ends |
| `AllocationProperties.EmptyIsSound` | src/App.js:240-247 | the empty grid satisfies the allocation invariant |
| `AllocationProperties.PushKeepsSound` | src/App.js:296-325 | a push to a slot that passed both checks, on an available day under the cap, keeps the invariant |
| `AllocationProperties.FillClassKeepsSound` | src/App.js:266-333 | one classroom's loop keeps the invariant |
| `AllocationProperties.AllocClassesKeepsSound` | src/App.js:266-334 | one teacher's classrooms keep the invariant |
| `AllocationProperties.AllocTeachersSound` | src/App.js:250-335 | every prefix of the roster yields a grid that satisfies the invariant |
| `AllocationProperties.GenerateIsSound` | src/App.js:239-335 | the generated grid satisfies the invariant |
| `AllocationProperties.GenerateHasNoDoubleBooking` | src/App.js:296-325 | no cell of the generated grid holds two entries of one teacher or two of one classroom |
| `AllocationProperties.GenerateRespectsAvailability` | src/App.js:268-325 | every entry carries some roster teacher's name, subject and one of their classrooms, on one of their days and in one of their slots |
| `AllocationProperties.GenerateRespectsDailyCap` | src/App.js:269-293 | with unique names, no teacher has more entries on a day than `maxHoursPerDay`, or 8 when it is missing or zero |
| `AllocationProperties.FillClassTally` | src/App.js:267-332 | one classroom's loop adds at most the hours it was given, and adds nothing to counts its entry does not match |
| `AllocationProperties.AllocClassesLeavesOthers` | src/App.js:266-334 | one teacher's classrooms leave every other teacher's per-classroom counts unchanged |
| `AllocationProperties.AllocClassesWithinTargets` | src/App.js:259-334 | with distinct classrooms, each classroom gains at most its target, and unlisted classrooms gain nothing |
| `AllocationProperties.AllocTeachersLeaveOthers` | src/App.js:250-335 | teachers with other names leave a teacher's per-classroom counts unchanged |
| `AllocationProperties.PrefixWithinTarget` | src/App.js:250-335 | after any prefix of the roster that contains teacher i, i's count in classroom c is at most the target |
| `AllocationProperties.GenerateWithinClassTargets` | src/App.js:259-332 | with unique teacher names and distinct classroom names, each teacher gets at most the target of each classroom in it |
| `AllocationExamples.GenerateSingle` | src/App.js:250-272 | a one-teacher, one-classroom roster runs exactly one classroom loop from the empty grid |
| `AllocationExamples.TieKeepsPreviousOrder` | src/App.js:272-327 | the worked run places Monday 8-9, Tuesday 8-9 and Tuesday 9-10, and leaves Monday 9-10 empty |
| `AllocationExamples.TargetLeftUnmet` | src/App.js:272-309 | a teacher with 10 hours, one day and one slot gets exactly one entry; the loop ends silently |
| `AllocationExamples.TargetsCanExceedWeeklyHours` | src/App.js:261 | an explicit zero falls back to the even split, and rounded-up targets can sum to more than the weekly hours |
| `Editor.ClickEvent` | src/App.js:192-200 | the editing event carries the clicked entry's fields and its day, slot and index, and its destination starts at the origin |
| `Editor.ChooseDestination` | src/App.js:777-794 | the popup's selects change the destination day and slot and nothing else |
| `Editor.MoveCells` | src/App.js:207-217 | the origin cell loses the entry at the index, the destination ends with the moved entry, the same-cell case is the splice followed by the push, and no other cell changes |
| `Editor.HandlePopupSave` | src/App.js:204-217 | with no editing event the grid is unchanged; otherwise the schedule becomes `MoveCells` of the old grid |
| `Editor.MoveTally` | src/App.js:210-217 | for every count, the move trades the removed entry for the appended one |
| `Editor.MovePreservesTallies` | src/App.js:210-217 | a move at a valid index keeps the total number of entries; when the entry at the index is the one the event was made from, every per-teacher and per-classroom count is kept |
| `Editor.StaleIndexOnlyAdds` | src/App.js:210-217 | an index past the end of the origin cell removes nothing, so the move adds one entry |
| `Editor.ClickedMoveKeepsCounts` | src/App.js:192-217 | clicking an entry, choosing any destination and saving keeps every count |
| `Editor.MoveCanDoubleBook` | src/App.js:204-217 | a grid with no conflicts can gain one through a move, because there is no check |
| `Export.Column` | src/App.js:171-174 | the field for (day, slot) lies within the 40 data columns |
| `Export.ColumnsCoverRow` | src/App.js:171-174 | every data column is the column of exactly one (day, slot) |
| `Export.FindEntry` | src/App.js:173 | `find` returns the first entry of the cell with that teacher, or nothing exactly when the teacher has no entry there |
| `Export.ClassroomOf` | src/App.js:174 | a non-empty field is the classroom of an entry of that teacher in the cell, and a cell without the teacher gives an empty field |
| `Export.DayHeaderRow` | src/App.js:152-158 | the first header has 41 fields: an empty corner, then each day's name over its first slot and empty fields over its other seven |
| `Export.HourHeaderRow` | src/App.js:160-165 | the second header has 41 fields: "Insegnante", then 1 to 8 under every day |
| `Export.TeacherRow` | src/App.js:170-176 | a teacher row has 41 fields: the name, then for each (day, slot) the classroom of the teacher's first entry there, or empty |
| `Export.ExportSchedule` | src/App.js:151-178 | the table is both headers followed by one row per teacher in order, and the text is those rows joined; the grid must be well shaped only when there is a teacher |
| `Export.Decimal` | src/App.js:163 | an hour number is written as decimal digits that spell its value, a single digit below 10 and no leading zero otherwise, as `String` writes it |
| `Export.JoinFields` | src/App.js:167-177 | `join(',')` of a row; its layout is stated by `JoinedRowCommas` |
| `Export.CsvText` | src/App.js:167-177 | the rows joined and each ended by a newline; stated by `CsvTextLines` and by `ExportSchedule`, which builds the same text row by row |
| `Export.JoinedRowCommas` | src/App.js:167-177 | when no field contains a comma, a joined row has one comma fewer than it has fields |
| `Export.CsvTextLines` | src/App.js:167-177 | when no field contains a newline, the text has exactly one line per row |

## Left out

- Browser I/O is not modelled. This covers the IndexedDB saves after generate and after a move, the Blob and anchor download of the export, and the loading effect. `src/services/teacherData.js` and `src/utils/csvUtils.js` are not part of this model.
- React state is not modelled: the hooks, the popup, the form handlers and rendering. The "schedule" of the model is the `Schedule` object. The shallow copy `{ ...schedule }` shares the cell lists, so the move changes the lists in place. The model shows this as the single object being updated.
- Text parsing is not modelled. This covers `parseInt`, the comma-splitting and trimming of classrooms and subjects, and reading the start hour from a slot label. Teachers arrive already parsed, with natural-number hours. NaN and negative parse results are outside the model.
- The `break` when the remaining hours reach zero is not written separately. The loop condition then fails at once, so the behaviour is the same.
- Days and slots are indices, not the day-name and slot-label keys of the source's nested object. A teacher day or slot that is not one of the five days or eight slots cannot be represented.
- `Target`: `classroomHours` is a map from classroom names to hours. The source looks the name up on a plain object, so a classroom named like an inherited property (`constructor`, `toString`, `valueOf`) finds a function there. A function is truthy, so it becomes the target instead of the even split; the loop's `> 0` test on it is then false and no hour is placed. That collision is not represented: in the model such a classroom gets the even split.
- `Export.ExportSchedule` requires a well-shaped grid only when the roster has a teacher. With no teachers it reads no cell and writes only the two header rows, whatever the grid; that case is modelled. With a teacher, the source fails on a grid that was never generated, a failure the model does not represent.
- Export fields are joined without quoting. A comma or newline inside a name or classroom shifts the columns or lines. The model only proves the layout for fields free of those characters (`JoinedRowCommas`, `CsvTextLines`).
- `GenerateRespectsDailyCap` assumes teacher names are unique, because teachers are told apart by name. With two teachers of the same name, their entries add up on a day.
- `GenerateWithinClassTargets` assumes unique teacher names and distinct classroom names. A repeated classroom name runs its loop twice.
