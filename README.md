# Teacher substitution planner

This project models the substitution planner of a one-page Streamlit app. The planner is given
one day's timetable and a list of absent teachers' names. The timetable is a table with a
`Teacher_Name` column and one column per `Period…` header, where an empty cell means the teacher
is free in that period.

For every absent teacher, and every period column in which that teacher has a subject, the planner
hands the class to the eligible teacher who:

- has taken over the fewest periods so far in this run, with ties broken by table order;
- still has an empty cell for that period;
- has not already been given that period.

Teachers are eligible unless they are absent or share a trimmed name with one of the first three
rows, who are senior staff.

The model has seven modules:

- `Text` — Python's `str.strip()` and `str.startswith()`.
- `Timetable` — staff rows, the period columns, and the list of names offered for selection.
- `Eligibility` — the absent rows and the eligible rows (`available_teachers`). Both are
  increasing sequences of row indices. A change made through one list is therefore seen through
  every list that holds the same row, as it is with the shared Python dicts.
- `Selection` — the stable sort by workload and the choice of the first free candidate. The
  method `ChooseSubstitute` runs that scan. It is proved equal to `LeastFree`, the free row that
  comes first in (workload, row) order.
- `Planner`:
  - The reference fold `Planned` over absent rows and periods.
  - The plan as an insertion-ordered dictionary (`Put`, `Record`) keyed by (absent name, period).
  - The run invariant `Inv`, proved preserved by every loop pass.
  - The imperative planner: `Plan` → `PlanAbsentees` → `PlanPeriods` → `AssignPeriod`, with
    nested `while` loops. `Plan` is proved to produce `Planned`'s rows and plan.
- `Steps` — what one pass of each loop does to the rows, the maps and the placements.
- `Guarantees` — what the finished plan and rows satisfy.

## Model

| member | source | states |
|---|---|---|
| Text.Trim | stremlit.py:31 | `strip()`: the result is empty exactly when the name is all whitespace; otherwise it neither starts nor ends with whitespace |
| Text.TrimIsInfix | stremlit.py:54 | `strip()` keeps one contiguous piece of the string, starting at its first non-whitespace character, and everything before and after that piece is whitespace |
| Timetable.PeriodColumns | stremlit.py:53 | the period list holds exactly the columns that start with "Period", is no longer than the columns, and has no repeats when the headers have none |
| Timetable.PeriodIndices | stremlit.py:53 | the positions of the period columns, increasing: a position is listed exactly when its header starts with "Period" |
| Timetable.PeriodColumnsInOrder | stremlit.py:53 | the period list is the headers at those positions, so the periods keep table order and a repeated header is listed as often as it occurs |
| Timetable.TeacherNamesAre | stremlit.py:31 | a name is offered for selection exactly when it is the non-empty trimmed name of some row |
| Eligibility.SeniorNames | stremlit.py:39 | `excluded_seniors` holds exactly the trimmed names of the first three rows (fewer when the table is shorter) |
| Eligibility.AbsentRows | stremlit.py:36 | absent rows are listed in table order; a row is listed exactly when its trimmed name was selected |
| Eligibility.AbsentRowsAre | stremlit.py:36 | row j is absent exactly when it exists and `Trim(name)` is in the absent list |
| Eligibility.EligibleRows | stremlit.py:40-44 | eligible rows are listed in table order; a row is listed exactly when its trimmed name is neither absent nor a senior name |
| Eligibility.EligibleRowsAre | stremlit.py:38-44 | row j is eligible exactly when its trimmed name is not absent and differs from each of the first three rows' trimmed names, so a later row sharing a senior's name is excluded |
| Eligibility.EligibleNotAbsentNorSenior | stremlit.py:40-44 | an eligible row is never absent and is never one of the first three rows |
| Selection.LeastFree | stremlit.py:60-63 | the reference choice is a free pool row (empty raw cell, period not busy) that precedes every other free pool row in (workload, row) order; it is None exactly when no pool row is free |
| Selection.MarkBusy | stremlit.py:65 | `busy_teachers[name].add(period)`: that name's busy set gains the period, the name is a key afterwards, and every other name's busy set is unchanged |
| Selection.Bump | stremlit.py:66 | `workload[name] += 1`: that name's count rises by one, the name is a key afterwards, and every other name's count is unchanged |
| Selection.SortByLoad | stremlit.py:56-59 | the sorted list is a permutation of the eligible rows |
| Selection.SortByLoadInOrder | stremlit.py:56-59 | the stable sort of a pool in table order lists it by workload, with ties kept in table order |
| Selection.FirstFreeIsLeast | stremlit.py:60-63 | the first free row of the sorted list is that reference choice |
| Selection.NoneFreeIsNone | stremlit.py:60-63 | when no sorted row is free, there is no choice |
| Selection.FirstFree | stremlit.py:60-63 | the scan returns the position of the first candidate with an empty cell and the period not busy for its name, and no earlier candidate is free; it returns the end when none is |
| Selection.ChooseSubstitute | stremlit.py:56-63 | scanning the stable-sorted pool for the first free row returns exactly the reference choice |
| Planner.KeyIndex | stremlit.py:67 | finds the position of the first entry with the same (absent name, period) key, or the end of the plan |
| Planner.Put | stremlit.py:67-70 | `plan[key] = value`: an existing key keeps its position and takes the new value; a new key is appended; entries under other keys are unchanged; keys stay unique |
| Planner.Record | stremlit.py:47-70 | the dict built from a sequence of insertions has unique keys, and every entry is one of the inserted items |
| Planner.LastIndex | stremlit.py:67-70 | the last position holding a given key, or -1 when the key was never inserted |
| Planner.RecordLastWins | stremlit.py:67-70 | a key inserted more than once holds the value of its last insertion, as with repeated `plan[key] = value` |
| Planner.RecordFirstOrder | stremlit.py:67-70 | dict entries are in the order in which their keys were first inserted |
| Planner.PutFirstOrder | stremlit.py:67-70 | one `plan[key] = value` keeps the entries in order of first insertion |
| Planner.RecordHasEveryKey | stremlit.py:67-70 | every inserted key is present in the dict |
| Planner.RecordKeepsAll | stremlit.py:67-70 | with no repeated key, the dict holds every insertion, in insertion order |
| Planner.PutNew | stremlit.py:67-70 | assigning a key the dict does not hold yet appends the entry at the end |
| Planner.RowListsApart | stremlit.py:36-44 | every absent and eligible row exists, and no absent row is in the eligible pool |
| Planner.StartInv | stremlit.py:47-49 | the run invariant holds at the start: every raw name is mapped to no busy periods, every eligible raw name to workload 0, and the plan is empty |
| Planner.AssignInv | stremlit.py:54-71 | one pass keeps the invariant. Each row is its original plus the cells the placements wrote. `busy_teachers[n]` holds exactly the periods given to n. `workload[n]` counts the placements given to n. Every placement is sound. No (substitute, period) pair is placed twice |
| Planner.PlaceInv | stremlit.py:64-70 | a placement of the reference choice keeps the invariant |
| Planner.TakeOver | stremlit.py:64-70 | the four updates of a placement (cell, busy set, workload, plan entry) give exactly the reference placement's state, and the plan stays the dict of the placements |
| Planner.RunPeriodsInv | stremlit.py:53-71 | the period loop keeps the invariant |
| Planner.RunAbsenteesInv | stremlit.py:52-71 | the absent-teacher loop keeps the invariant |
| Planner.PlannedInv | stremlit.py:47-71 | the invariant holds of the planner's final state |
| Planner.AssignPeriod | stremlit.py:54-71 | one pass of the period loop: it produces the reference pass's rows, busy sets, workloads and placements, and the plan dict built from them |
| Planner.PlanPeriods | stremlit.py:53-71 | the period loop, in column order, equals the reference fold over the periods |
| Planner.PlanAbsentees | stremlit.py:52-71 | the absent-teacher loop, in table order, equals the reference fold over the absent rows |
| Planner.Plan | stremlit.py:36-71 | the button handler returns the reference final rows and the dict of the reference placements |
| Steps.PlaceTook | stremlit.py:64-66 | a placement changes only the substitute's cell for that period, adds the period to that name's busy set, raises that name's workload by one, and leaves every other name's busy set and workload unchanged |
| Steps.AssignEffect | stremlit.py:54-71 | a pass changes nothing exactly when the subject is blank or no pool row is free. Otherwise it appends one placement of the trimmed subject, made to a free pool row that is least in (workload, row) order, and changes nothing else |
| Steps.AssignAppends | stremlit.py:60-71 | a pass appends at most one placement, for its own absent row and period (the loop breaks after the first pick) |
| Steps.RunPeriodsAppends | stremlit.py:53-71 | the period loop keeps the earlier placements as a prefix, and each placement it adds is for its absent row in one of the periods it went through |
| Steps.RunPeriodsLog | stremlit.py:53-71 | the period loop only appends placements for its absent row and periods; with distinct periods, no two share a period |
| Steps.RunAbsenteesAppends | stremlit.py:52-71 | the absent-teacher loop only appends placements, each for one of its absent rows |
| Steps.RunAbsenteesSlots | stremlit.py:52-71 | with absent rows in table order and distinct periods, no two placements share an (absent row, period) |
| Guarantees.EntryFromPick | stremlit.py:67-70 | every plan entry comes from a placement |
| Guarantees.PickMeans | stremlit.py:36-70 | each placement, read in the table's terms: the absent row's trimmed, non-empty subject in a period column goes to a non-absent, non-senior row whose cell was empty and now holds the subject |
| Guarantees.PlanEntrySound | stremlit.py:36-70 | every plan entry has a non-empty trimmed subject of an absent row in a "Period" column, given to a row that is not absent and not senior by name, whose original cell was empty and whose final cell holds the subject |
| Guarantees.NoDoubleBooking | stremlit.py:62-65 | no (substitute, period) pair appears in two plan entries |
| Guarantees.CellsFrame | stremlit.py:40-64 | a returned cell differs from the original only if it was an empty "Period" cell of a row that is not absent and not senior by name; names never change |
| Guarantees.CellsFrameInv | stremlit.py:64 | along the run, only empty period cells of pool rows are written |
| Guarantees.AbsentRowUnchanged | stremlit.py:40-64 | every absent row comes back exactly as it was |
| Guarantees.OnePickPerSlot | stremlit.py:60-71 | with distinct column headers, at most one substitute is chosen per (absent row, period) |
| Guarantees.SlotKeys | stremlit.py:67 | when absent rows' raw names differ, sound placements for two different (absent row, period) slots get different plan keys |
| Guarantees.SlotsGiveUniqueKeys | stremlit.py:67 | sound placements made one per slot give plan items whose keys are all distinct |
| Guarantees.PlanIsLog | stremlit.py:67-70 | with distinct headers and distinct raw absent names, no entry is overwritten: the plan is every placement, in order |
| Guarantees.ItemsCount | stremlit.py:66-70 | the number of entries naming n, and their periods, match the placements given to n |
| Guarantees.BookkeepingInv | stremlit.py:49-66 | along the run, `workload[n]` equals the number of placements naming n and `busy_teachers[n]` is their periods |
| Guarantees.BookkeepingMatchesPlan | stremlit.py:48-70 | at the end, `workload` has exactly the eligible raw names as keys, each equal to its number of plan entries; `busy_teachers` has every raw name, each holding the periods of its plan entries |

## Left out

- The Streamlit page: day selector, multiselect, button and rendering (stremlit.py:4-11, 32, 73-82). This is user interface.
- `Plan` does not model the button guard on a non-empty absent list (stremlit.py:34). With no absent names, the model produces an empty plan and unchanged rows, which is the same as not running.
- CSV loading through pandas, the `Teacher_Name` check, `fillna` and the file-error paths (stremlit.py:14-28). This is I/O in a foreign library. The input is the column headers plus rows of string cells, and a missing cell reads as "" (`.get(period, "")`).
- `str(...)` coercion of non-string values. Every name and cell is already a string.
- The formatted key `"<absent> - <period>"` and the display text (stremlit.py:67, 77). The key is modelled as the pair (absent raw name, period). Two distinct pairs whose formatted strings happen to coincide are not modelled as colliding.
- Planner.PlanAbsentees: does not return its final `busy_teachers` and `workload` maps, since the script never reads them after the loop. They are still tied to the reference fold inside the loop, and `Guarantees.BookkeepingMatchesPlan` states the final maps.
- Guarantees.PlanIsLog: proved only when the column headers are distinct (as in a data frame) and the absent rows' raw names differ. Two absent rows with equal raw names write under the same key, and the later value replaces the earlier one in the earlier position, as in the Python dict (`Planner.RecordLastWins`, `Planner.RecordFirstOrder`).
- Guarantees.BookkeepingMatchesPlan: stated under the same two conditions, because an overwritten entry would no longer be counted. `Guarantees.BookkeepingInv` states the counts against the placements with no condition.
- Identity by raw name: `busy_teachers` and `workload` are keyed by the untrimmed name, as in the code. Two rows with equal raw names share one busy set and one counter. Rows whose names differ only by whitespace are tracked separately. The model keeps both behaviours and states the guarantees per raw name.
- The model follows the code on seniors. The first three rows are excluded by trimmed name, so in a four-row table S1..S4 with S3 absent, only S4 is eligible (S2 is one of the first three rows).
