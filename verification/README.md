# University timetable scheduler — a Dafny model

This project models the core of a Spring Boot service that builds weekly
university timetables. It has two scheduling engines, both over a grid of five
weekdays by a day's time slots.

- **The backtracking engine** (`Timetableservice.java`, class `TimetableService`)
  marks each day's break slots. It then fills every other slot by a depth-first
  search. The search respects a per-day cap, the subject's weekly hours and the
  faculty's preferred days, and prefers a faculty other than the previous
  slot's. The result is rendered as stored entries and as a day × slot matrix.
- **The grid engine** (`TimetableService.java`, same class name, a second file)
  starts from an eleven-slot grid with fixed breaks. Its top level is
  randomised. The model covers its deterministic helpers:
  - the free-window test and lab-block placement;
  - the session counters;
  - moving sessions between days;
  - the consecutive-session and daily-cap repair;
  - the allocation of the remaining slots;
  - the free-period budget;
  - the teacher update.
- **The controller** (`Timetablecontroller.java`) writes the CSV export and
  defaults and stores new subjects. `FacultyPreferenceController.java`
  validates faculty preferences.
- **The entities** (`Subject.java`, `TimetableEntry.java`) carry a session-number
  range check, the lab test, and the subject-code generation.

Modelling conventions:
- Java `null` is `Option.None`, and string concatenation renders it as `"null"`
  (`JavaText.JavaString`).
- An exception is a `Result.Failure`, or `None` where no message matters.
- Every shuffle, and every other random choice, is a `picks` parameter. The
  model covers every outcome: `Choice.ShuffleReachesEveryPermutation`.
- Java's stable `List.sort` is a stable insertion sort.
- The stores (the JPA repositories) are plain sequences passed in and returned.

Modules, one per file:

| file | module | models |
|---|---|---|
| wrappers.dfy | Wrappers | `Option`, `Result` |
| text.dfy | JavaText | `contains`, `trim`, `equalsIgnoreCase`, `replace`, `replaceAll("\\s+","")`, `toUpperCase`, occurrence counts |
| choice.dfy | Choice | `Collections.shuffle` driven by picks, stable sort, filtering, concatenation |
| entities.dfy | Entities | `Subject`, `TimetableEntry`, `FacultyPreference`, `TimetableRequest` |
| slot_matrix.dfy | SlotMatrix | the (day, session) lookup shared by both `buildDaySlotMatrix` methods |
| day_scheduler.dfy | DayScheduler | the backtracking engine's defaults, break marking, search and rendering |
| day_export.dfy | DayExport | the backtracking engine's generated week and its matrix |
| grid.dfy | Grid | the grid engine's grid, counters, budget, `isFree`, lab placement, export |
| grid_repair.dfy | GridRepair | `moveSubjectBetweenDays`, `redistributeFreePeriods` |
| session_cap.dfy | SessionCap | `validateAndFixConsecutiveSlots` |
| allocation.dfy | Allocation | `allocateRemainingSlots` |
| teacher_update.dfy | TeacherUpdate | `updateTeacherAvailability` |
| csv.dfy | Csv | `downloadCSV` as written, and reading its text back |
| csv_quoted.dfy | QuotedCsv | the CSV with quoting (section 2 of RFC 4180), and its parser |
| subject_defaults.dfy | SubjectDefaults | subject defaulting in the controller's `generateSchedule` |
| preferences.dfy | Preferences | `addFacultyPreference` |

## Model

| member | source | states |
|---|---|---|
| Entities.NewSubject | timetable-scheduler/src/main/java/com/university/scheduler/model/Subject.java:34-41 | A fresh subject has every reference null, zero hours, no lab, and `available` true. |
| Entities.SubjectOf | timetable-scheduler/src/main/java/com/university/scheduler/model/Subject.java:43-52 | The six-argument constructor keeps the given fields, sets `available` true and leaves the alternate faculty null. |
| Entities.AutoCode | timetable-scheduler/src/main/java/com/university/scheduler/model/Subject.java:100 | A generated code is no longer than the name and holds no whitespace and no lower-case letter. |
| Entities.AutoCodeAppend | timetable-scheduler/src/main/java/com/university/scheduler/model/Subject.java:100 | The code of a concatenation is the codes of its parts, one after the other. |
| Entities.AutoCodeChar | timetable-scheduler/src/main/java/com/university/scheduler/model/Subject.java:100 | A whitespace character contributes nothing to the code; any other contributes itself upper-cased. With `AutoCodeAppend` this fixes the code of every name: the name with its whitespace removed, upper-cased, in order. |
| Entities.SetName | timetable-scheduler/src/main/java/com/university/scheduler/model/Subject.java:96-102 | The name is always replaced. A non-blank code is kept. A blank code becomes `AutoCode` of the new name. It throws exactly when the name is null and the code blank. Nothing else changes. |
| Entities.SetCode | timetable-scheduler/src/main/java/com/university/scheduler/model/Subject.java:104-106 | The code is overwritten whatever it held; nothing else changes. |
| Entities.AutoCodeIdempotent | timetable-scheduler/src/main/java/com/university/scheduler/model/Subject.java:100 | Generating a code from a generated code gives the same code. |
| Entities.RemoveWhitespaceKeepsClean | timetable-scheduler/src/main/java/com/university/scheduler/model/Subject.java:100 | Text without whitespace passes the whitespace removal unchanged. |
| Entities.AutoCodeOfVisibleName | timetable-scheduler/src/main/java/com/university/scheduler/model/Subject.java:99-101 | A name with a visible character generates a code that is not blank, so a later `setName` keeps it. |
| Entities.SetNameIdempotent | timetable-scheduler/src/main/java/com/university/scheduler/model/Subject.java:96-102 | Setting the same non-null name twice equals setting it once. |
| Entities.SetNameSetCodeCommute | timetable-scheduler/src/main/java/com/university/scheduler/model/Subject.java:96-106 | Once a non-blank code is set, `setName` and `setCode` commute. |
| Entities.NewEntry | timetable-scheduler/src/main/java/com/university/scheduler/model/TimetableEntry.java:22-26 | A fresh entry has no day, no subject, session 0 and the lab flag false. |
| Entities.EntryOf | timetable-scheduler/src/main/java/com/university/scheduler/model/TimetableEntry.java:28-33 | The three-argument constructor stores any session number unchecked and sets the lab flag false. |
| Entities.SetSessionNumber | timetable-scheduler/src/main/java/com/university/scheduler/model/TimetableEntry.java:63-69 | The number is stored exactly when it is within 1..11. Otherwise the call fails with the source's message and the entry is unchanged. |
| Entities.SetSessionNumberTwice | timetable-scheduler/src/main/java/com/university/scheduler/model/TimetableEntry.java:63-69 | After a successful setting, a second one succeeds exactly as it would alone, and the later number wins. |
| Entities.IsLabSessionIffOccurs | timetable-scheduler/src/main/java/com/university/scheduler/model/TimetableEntry.java:79-81 | An entry is a lab session exactly when its subject is non-null and has "Lab" at some position; the stored flag plays no part. |
| Entities.PreferenceOf | timetable-scheduler/src/main/java/com/university/scheduler/model/FacultyPreference.java:27-30 | The two-argument constructor leaves the preferred times null. |
| JavaText.Count | timetable-scheduler/src/main/java/com/university/scheduler/service/TimetableService.java:498-507 | An occurrence count is at most the length, and zero exactly when the element is absent. |
| JavaText.ContainsIffOccurs | timetable-scheduler/src/main/java/com/university/scheduler/model/TimetableEntry.java:80 | `contains` holds exactly when some window of the text spells the target. |
| JavaText.Trim | timetable-scheduler/src/main/java/com/university/scheduler/service/Timetableservice.java:76-77 | `trim` gives the slice between the leading and trailing characters up to U+0020: it starts after the leading ones, and every character after it is one. It is empty exactly when every character is such a one, and otherwise it starts and ends with a visible character. |
| JavaText.RemoveWhitespace | timetable-scheduler/src/main/java/com/university/scheduler/model/Subject.java:100 | The result holds no whitespace, keeps every other character, and is no longer than its input. |
| JavaText.RemoveWhitespaceAppend | timetable-scheduler/src/main/java/com/university/scheduler/model/Subject.java:100 | Removing whitespace from a concatenation removes it from each part, so order and multiplicity are kept. |
| JavaText.RemoveWhitespaceChar | timetable-scheduler/src/main/java/com/university/scheduler/model/Subject.java:100 | A single character is dropped exactly when it is regex whitespace, and kept otherwise. |
| JavaText.ToUpperAscii | timetable-scheduler/src/main/java/com/university/scheduler/model/Subject.java:100 | Upper-casing keeps the length and maps each character on its own. |
| JavaText.ToUpperAsciiAppend | timetable-scheduler/src/main/java/com/university/scheduler/model/Subject.java:100 | Upper-casing a concatenation upper-cases each part. |
| JavaText.ReplaceAbsent | timetable-scheduler/src/main/java/com/university/scheduler/service/TimetableService.java:1134 | Replacing a target that does not occur changes nothing. |
| JavaText.ReplaceWithItself | timetable-scheduler/src/main/java/com/university/scheduler/service/TimetableService.java:1134 | Replacing a target with itself changes nothing. |
| Choice.Shuffle | timetable-scheduler/src/main/java/com/university/scheduler/service/TimetableService.java:262-263 | A shuffle is a permutation of its input. |
| Choice.ShuffleMembers | timetable-scheduler/src/main/java/com/university/scheduler/service/TimetableService.java:262-263 | Shuffling neither adds nor loses an element. |
| Choice.ShuffleDistinct | timetable-scheduler/src/main/java/com/university/scheduler/service/TimetableService.java:301 | Shuffling a list without repetitions gives one without repetitions. |
| Choice.ShuffleReachesEveryPermutation | timetable-scheduler/src/main/java/com/university/scheduler/service/TimetableService.java:1285 | Every rearrangement is the outcome of some picks, so passing the picks in covers every random outcome. |
| Choice.SortBySpec | timetable-scheduler/src/main/java/com/university/scheduler/service/TimetableService.java:1050 | The sort is a permutation of its input, in ascending key order, and stable: for every key value the elements with that key appear in their input order. |
| Choice.InsertWithKey | timetable-scheduler/src/main/java/com/university/scheduler/service/TimetableService.java:1050 | An inserted element heads the elements of its own key and leaves every other key's elements as they were. |
| Choice.SortByStable | timetable-scheduler/src/main/java/com/university/scheduler/service/TimetableService.java:1050 | For every key value, the sorted list and the input list hold the elements with that key in the same order. |
| Choice.ConcatAt | timetable-scheduler/src/main/java/com/university/scheduler/service/Timetableservice.java:70-104 | With blocks of `n` items each, item `i` of block `k` lands at position `k * n + i`. |
| SlotMatrix.LastMatch | timetable-scheduler/src/main/java/com/university/scheduler/service/Timetableservice.java:219-222 | Finds the last entry for a (day, session), or reports that none exists. |
| SlotMatrix.LookupIsLastMatch | timetable-scheduler/src/main/java/com/university/scheduler/service/Timetableservice.java:219-222 | `Lookup`: after all the `put`s, the map holds the subject of the last entry for a (day, session), and no key exactly when no entry matches. |
| SlotMatrix.LookupAppend | timetable-scheduler/src/main/java/com/university/scheduler/service/Timetableservice.java:219-222 | Entries stored later override earlier ones for the same key. |
| SlotMatrix.BuildMatrix | timetable-scheduler/src/main/java/com/university/scheduler/service/Timetableservice.java:224-231 | One row per day, one column per session 1..width, each cell the stored subject or the default text. |
| SlotMatrix.LookupOtherDay | timetable-scheduler/src/main/java/com/university/scheduler/service/Timetableservice.java:226 | Entries of other days hold nothing for a day. |
| SlotMatrix.LookupConcatAbsent | timetable-scheduler/src/main/java/com/university/scheduler/service/Timetableservice.java:226 | A day outside the week's day list finds nothing. |
| SlotMatrix.LookupConcat | timetable-scheduler/src/main/java/com/university/scheduler/service/Timetableservice.java:219-228 | With one block per distinct day, looking a day up in the week is looking it up in that day's block. |
| DayScheduler.MaxSessionsOf | timetable-scheduler/src/main/java/com/university/scheduler/service/Timetableservice.java:37 | The daily cap is the request's value, or 2 when it gives none. |
| DayScheduler.TimeSlotsOf | timetable-scheduler/src/main/java/com/university/scheduler/service/Timetableservice.java:40-42 | The slots are the request's, or the nine defaults when they are null or empty; never empty. |
| DayScheduler.BreaksOf | timetable-scheduler/src/main/java/com/university/scheduler/service/Timetableservice.java:44-46 | The break labels are the request's, or the two defaults when they are null or empty; never empty. |
| DayScheduler.WithDefaultHours | timetable-scheduler/src/main/java/com/university/scheduler/service/Timetableservice.java:53-55 | A subject with zero hours gets three; any other keeps its hours; nothing else changes. |
| DayScheduler.DefaultAllHours | timetable-scheduler/src/main/java/com/university/scheduler/service/Timetableservice.java:52-57 | Every subject of the list is defaulted, in place. |
| DayScheduler.ZeroCounts | timetable-scheduler/src/main/java/com/university/scheduler/service/Timetableservice.java:51-57 | Every subject's code has a counter, and every counter starts at zero. |
| DayScheduler.LastFor | timetable-scheduler/src/main/java/com/university/scheduler/service/Timetableservice.java:60-65 | Finds the last preference given for a faculty. |
| DayScheduler.PreferenceMapLastWins | timetable-scheduler/src/main/java/com/university/scheduler/service/Timetableservice.java:60-65 | The preference map has a faculty exactly when some preference names it, and then holds the last one given. |
| DayScheduler.AnyBreakMatches | timetable-scheduler/src/main/java/com/university/scheduler/service/Timetableservice.java:76-77 | The scan says yes exactly when the trimmed slot equals some trimmed break label, ignoring case. |
| DayScheduler.BreakMask | timetable-scheduler/src/main/java/com/university/scheduler/service/Timetableservice.java:73-83 | Slot `i` is marked as a break exactly when its label matches a break label. |
| DayScheduler.Admissible | timetable-scheduler/src/main/java/com/university/scheduler/service/Timetableservice.java:144-154 | A subject passes both filters exactly when its faculty may teach today and its count is below both its hours and the daily cap. |
| DayScheduler.Candidates | timetable-scheduler/src/main/java/com/university/scheduler/service/Timetableservice.java:144-154 | The candidates of a slot are exactly the day's subjects allowed today and below both caps. |
| DayScheduler.Differing | timetable-scheduler/src/main/java/com/university/scheduler/service/Timetableservice.java:157-159 | Keeps exactly the candidates whose faculty differs from the previous slot's, or all when there is no previous faculty. |
| DayScheduler.SortByCountSpec | timetable-scheduler/src/main/java/com/university/scheduler/service/Timetableservice.java:165 | The sort by today's count is a permutation in ascending count order, and subjects with equal counts keep their input order. |
| DayScheduler.InsertByCountIsInsert | timetable-scheduler/src/main/java/com/university/scheduler/service/Timetableservice.java:165 | The search's insertion is the general insertion keyed by today's count. |
| DayScheduler.SortByCountIsSortBy | timetable-scheduler/src/main/java/com/university/scheduler/service/Timetableservice.java:165 | The search's sort is the general stable sort keyed by today's count. |
| DayScheduler.Ordered | timetable-scheduler/src/main/java/com/university/scheduler/service/Timetableservice.java:156-165 | The tried subjects are all candidates. |
| DayScheduler.OrderedSpec | timetable-scheduler/src/main/java/com/university/scheduler/service/Timetableservice.java:156-165 | The order is sorted by today's count and is a permutation of the pool. It keeps every candidate whose faculty differs from the previous one, and only those when any exists. When none exists it keeps all candidates. |
| DayScheduler.PrevTeaching | timetable-scheduler/src/main/java/com/university/scheduler/service/Timetableservice.java:136-139 | The previous slot found is the last non-break slot before `index`, with only breaks between. |
| DayScheduler.Backtrack | timetable-scheduler/src/main/java/com/university/scheduler/service/Timetableservice.java:123-177 | The search keeps the day's length and a counter for every subject. |
| DayScheduler.TryEach | timetable-scheduler/src/main/java/com/university/scheduler/service/Timetableservice.java:166-176 | The candidate loop keeps the day's length and a counter for every subject. |
| DayScheduler.BacktrackSound | timetable-scheduler/src/main/java/com/university/scheduler/service/Timetableservice.java:126-177 | On success, every slot from `index` on is a filled teaching slot or an empty break. Each placement was admissible counting the placements before it, and the counts record exactly the placements. On failure, the slots and counts are as they were. |
| DayScheduler.TryEachSound | timetable-scheduler/src/main/java/com/university/scheduler/service/Timetableservice.java:166-176 | The candidate loop gives the same guarantee as the search, for a teaching slot. |
| DayScheduler.FailedTurnRestores | timetable-scheduler/src/main/java/com/university/scheduler/service/Timetableservice.java:167-174 | A failed turn, once its placement is taken back, leaves the slots and counts exactly as the turn found them. |
| DayScheduler.BreakLift | timetable-scheduler/src/main/java/com/university/scheduler/service/Timetableservice.java:129-131 | A break slot is skipped and stays empty. |
| DayScheduler.TryEachLift | timetable-scheduler/src/main/java/com/university/scheduler/service/Timetableservice.java:167-171 | A success after placing an admissible subject is a success from the slot itself. |
| DayScheduler.UndoRestores | timetable-scheduler/src/main/java/com/university/scheduler/service/Timetableservice.java:173-174 | Taking a placement back restores the slot and the count. |
| DayScheduler.EmptyDay | timetable-scheduler/src/main/java/com/university/scheduler/service/Timetableservice.java:72 | A new day has every slot empty. |
| DayScheduler.DayFilledOrEmpty | timetable-scheduler/src/main/java/com/university/scheduler/service/Timetableservice.java:86-101 | `ScheduleDay`: a day is either fully taught, with every non-break slot filled and every break empty, or entirely empty when the search fails. |
| DayScheduler.DayRespectsPreferences | timetable-scheduler/src/main/java/com/university/scheduler/service/Timetableservice.java:144-151 | `ScheduleDay`: every placed subject is one of the day's subjects, and its faculty's preferred days, when given, include the day. |
| DayScheduler.DailyCaps | timetable-scheduler/src/main/java/com/university/scheduler/service/Timetableservice.java:86 | `ScheduleDay`: a subject appears on a day at most `min(hours, cap)` times, because each day's counts start from zero. This assumes its code is not shared. |
| DayScheduler.PrefixCaps | timetable-scheduler/src/main/java/com/university/scheduler/service/Timetableservice.java:152-153 | Every prefix of a day respects both caps for a subject. |
| DayScheduler.RenderDay | timetable-scheduler/src/main/java/com/university/scheduler/service/Timetableservice.java:91-103 | A day renders as one entry per slot, each carrying the day. |
| DayScheduler.DayEntries | timetable-scheduler/src/main/java/com/university/scheduler/service/Timetableservice.java:70-103 | A scheduled day renders as one entry per slot, each carrying the day. |
| DayScheduler.WeekBlocks | timetable-scheduler/src/main/java/com/university/scheduler/service/Timetableservice.java:67-70 | The week is one block per weekday. |
| DayScheduler.Generate | timetable-scheduler/src/main/java/com/university/scheduler/service/Timetableservice.java:32-107 | Generation fails exactly when the subject list is null or there are more than 11 time slots. The second case fails with the session-number message. |
| DayExport.SlotTextBreak | timetable-scheduler/src/main/java/com/university/scheduler/service/Timetableservice.java:95-100 | A slot renders as "BREAK" exactly when it is a break slot. |
| DayExport.GenerateIsWeek | timetable-scheduler/src/main/java/com/university/scheduler/service/Timetableservice.java:67-104 | A successful generation is the weekdays' entries, one day after another. |
| DayExport.DayEntryAt | timetable-scheduler/src/main/java/com/university/scheduler/service/Timetableservice.java:91-103 | Slot `i` of a day renders as that day, session `i + 1`, the slot's text, and the lab flag false. |
| DayExport.WeekBlockAt | timetable-scheduler/src/main/java/com/university/scheduler/service/Timetableservice.java:67-70 | Block `k` of the week is weekday `k`'s entries. |
| DayExport.WeekLength | timetable-scheduler/src/main/java/com/university/scheduler/service/Timetableservice.java:70-104 | The week holds one entry per weekday and time slot. |
| DayExport.WeekBlocksShape | timetable-scheduler/src/main/java/com/university/scheduler/service/Timetableservice.java:91 | Each weekday renders one entry per time slot. |
| DayExport.GeneratedEntryShape | timetable-scheduler/src/main/java/com/university/scheduler/service/Timetableservice.java:91-102 | A successful generation is the weekdays' blocks in order, each with one entry per slot. Entry `i` of weekday `k` names that weekday and has session number `i + 1`, within 1..11. Its lab flag is unset. It reads "BREAK" exactly when its slot matches a break label. `Choice.ConcatAt` places it at `k * n + i`. |
| DayExport.GeneratedDayFilledOrFree | timetable-scheduler/src/main/java/com/university/scheduler/service/Timetableservice.java:86-101 | On each day of a successful generation, either every teaching slot shows a subject allowed that day, or every one shows "Free Period". |
| DayExport.LookupRender | timetable-scheduler/src/main/java/com/university/scheduler/service/Timetableservice.java:219-228 | Within one day's entries, (day, session) is found exactly at slot `session - 1`. |
| DayExport.MatrixOfBlocks | timetable-scheduler/src/main/java/com/university/scheduler/service/Timetableservice.java:224-231 | The matrix of a week shows each weekday's own block. |
| DayExport.WeekBlocksByDay | timetable-scheduler/src/main/java/com/university/scheduler/service/Timetableservice.java:91-93 | Each weekday's block holds only that weekday's entries. |
| DayExport.MatrixShowsGenerated | timetable-scheduler/src/main/java/com/university/scheduler/service/Timetableservice.java:213-234 | The exported matrix has nine columns per weekday. Each shows the generated text for that slot, and "" past the request's last slot. |
| Grid.LabLabelContainsLab | timetable-scheduler/src/main/java/com/university/scheduler/service/TimetableService.java:259 | A lab label contains "Lab", so the repairs leave it alone. |
| Grid.GridCountUpdate | timetable-scheduler/src/main/java/com/university/scheduler/service/TimetableService.java:599-609 | Replacing one day changes the week's count by that day's difference. |
| Grid.CountInGrid | timetable-scheduler/src/main/java/com/university/scheduler/service/TimetableService.java:599-609 | The nested loop counts every slot of every day that holds the label. |
| Grid.CountSessionsForSubject | timetable-scheduler/src/main/java/com/university/scheduler/service/TimetableService.java:498-507 | Counts the slots of a day that hold the subject's `faculty - name` label. |
| Grid.CountActualHours | timetable-scheduler/src/main/java/com/university/scheduler/service/TimetableService.java:999-1028 | A subject's hours are its theory slots in the week, plus 3 when its lab label appears on any day. |
| Grid.InitialGrid | timetable-scheduler/src/main/java/com/university/scheduler/service/TimetableService.java:72-91 | The starting grid has one row per weekday. |
| Grid.InitialGridShape | timetable-scheduler/src/main/java/com/university/scheduler/service/TimetableService.java:72-91 | Each initial day has 11 slots. The short break is exactly at slot 3 and the long break exactly at slot 7; every other slot is "UNALLOCATED". |
| Grid.InitialRowCounts | timetable-scheduler/src/main/java/com/university/scheduler/service/TimetableService.java:72-91 | Each initial day has nine unallocated slots and no free period. |
| Grid.GridCountUniform | timetable-scheduler/src/main/java/com/university/scheduler/service/TimetableService.java:72-91 | A week of equal days holds five times one day's count. |
| Grid.InitialGridBudget | timetable-scheduler/src/main/java/com/university/scheduler/service/TimetableService.java:64-91 | The initial grid has exactly the 45 effective slots unallocated and no free period. |
| Grid.FreePeriodBudgetBounds | timetable-scheduler/src/main/java/com/university/scheduler/service/TimetableService.java:106-118 | `FreePeriodBudget`: the budget is `min(requested, 45 - hours)`, counting three extra hours per lab. Without a requested value it is all `45 - hours` slots. |
| Grid.DesiredFreePeriods | timetable-scheduler/src/main/java/com/university/scheduler/service/TimetableService.java:106-118 | The loop summing hours, plus three per lab, computes that budget. |
| Grid.IsFree | timetable-scheduler/src/main/java/com/university/scheduler/service/TimetableService.java:483-496 | True exactly when the window lies within the day and each of its slots is unallocated or a free period. |
| Grid.LabStarts | timetable-scheduler/src/main/java/com/university/scheduler/service/TimetableService.java:288-298 | The collected starts are exactly the valid ones: within the day, clear of both break indices, and with three free slots. |
| Grid.TryPlaceLabSpec | timetable-scheduler/src/main/java/com/university/scheduler/service/TimetableService.java:284-313 | `TryPlaceLab`: a lab goes in exactly when a valid start exists. It then fills three consecutive free slots clear of both breaks, and changes nothing else. |
| Grid.TryPlaceLabReaches | timetable-scheduler/src/main/java/com/university/scheduler/service/TimetableService.java:300-305 | Every valid start is chosen by some shuffle. |
| Grid.LabStartsOfFullDay | timetable-scheduler/src/main/java/com/university/scheduler/service/TimetableService.java:289-293 | On an eleven-slot day the only possible starts are 0, 4 and 8. |
| Grid.DayIndices | timetable-scheduler/src/main/java/com/university/scheduler/service/TimetableService.java:262 | The day order before shuffling is 0..n-1. |
| Grid.FirstFit | timetable-scheduler/src/main/java/com/university/scheduler/service/TimetableService.java:265-279 | The day chosen is in the order, passes the lab-free filter when asked, and has room. When none is found, no such day has room. |
| Grid.PlaceLabBlockSpec | timetable-scheduler/src/main/java/com/university/scheduler/service/TimetableService.java:253-282 | `PlaceLabBlock`: a lab subject's block lands on exactly one day with room, and that day is marked. A day that already had a lab is used only when no lab-free day has room. Nothing changes only when no day has room, or when the subject needs no lab. |
| Grid.RowEntries | timetable-scheduler/src/main/java/com/university/scheduler/service/TimetableService.java:233-237 | A day's slots become one entry per slot carrying the day. |
| Grid.GridBlocks | timetable-scheduler/src/main/java/com/university/scheduler/service/TimetableService.java:233-237 | The saved entries are built one weekday at a time. |
| Grid.LookupRow | timetable-scheduler/src/main/java/com/university/scheduler/service/TimetableService.java:1105-1109 | Within one day's entries, (day, session) is found exactly at slot `session - 1`. |
| Grid.MatrixOfGrid | timetable-scheduler/src/main/java/com/university/scheduler/service/TimetableService.java:1103-1120 | `GridMatrix`: saving the grid and reading it back through the matrix gives each weekday's slots, then "Free Period" past the day's end. |
| GridRepair.FirstMovable | timetable-scheduler/src/main/java/com/university/scheduler/service/TimetableService.java:571-595 | Finds the first source slot whose label may move to the target. |
| GridRepair.Move | timetable-scheduler/src/main/java/com/university/scheduler/service/TimetableService.java:566-597 | A move keeps the grid's shape. |
| GridRepair.MoveSpec | timetable-scheduler/src/main/java/com/university/scheduler/service/TimetableService.java:566-597 | Between two days, nothing moves exactly when no source session may go to the target. Otherwise the first such session goes into the target's first free period, and no other day changes. |
| GridRepair.MovePreservesFreeTotal | timetable-scheduler/src/main/java/com/university/scheduler/service/TimetableService.java:566-597 | A move keeps the week's number of free periods. |
| GridRepair.MoveShiftsFreePeriod | timetable-scheduler/src/main/java/com/university/scheduler/service/TimetableService.java:578-590 | A move gives the source one more free period and the target one fewer. |
| GridRepair.FreeCounts | timetable-scheduler/src/main/java/com/university/scheduler/service/TimetableService.java:513-523 | The recorded counts are each day's free periods. |
| GridRepair.TargetDays | timetable-scheduler/src/main/java/com/university/scheduler/service/TimetableService.java:530-535 | The targets are the other days recorded below the maximum, in order. |
| GridRepair.MoveIntoTargets | timetable-scheduler/src/main/java/com/university/scheduler/service/TimetableService.java:544-555 | The inner loop keeps the grid's shape and the records' length. |
| GridRepair.TargetOrder | timetable-scheduler/src/main/java/com/university/scheduler/service/TimetableService.java:530-542 | The shuffled targets are other days recorded below the maximum, none twice. |
| GridRepair.RebalanceDay | timetable-scheduler/src/main/java/com/university/scheduler/service/TimetableService.java:525-557 | One turn of the outer loop keeps the grid's shape. |
| GridRepair.RedistributeFrom | timetable-scheduler/src/main/java/com/university/scheduler/service/TimetableService.java:525-557 | The outer loop keeps the grid's shape. |
| GridRepair.RedistributePreservesFreeTotal | timetable-scheduler/src/main/java/com/university/scheduler/service/TimetableService.java:509-564 | `RedistributeAsWritten` and `Redistribute`: redistribution, as written or corrected, keeps the week's free periods, which the closing comparison checks. |
| GridRepair.RedistributeKeepsBookkeeping | timetable-scheduler/src/main/java/com/university/scheduler/service/TimetableService.java:544-553 | `Redistribute`: with each move taken into the overloaded day, the recorded counts equal the days' actual free periods at every step. |
| GridRepair.RedistributeNeverOverloads | timetable-scheduler/src/main/java/com/university/scheduler/service/TimetableService.java:525-557 | `Redistribute`: with the correction, no day ends with more free periods than it started with, unless it ends with at most three. |
| GridRepair.AsWrittenBookkeepingDrifts | timetable-scheduler/src/main/java/com/university/scheduler/service/TimetableService.java:549-552 | As written, one move parts the records from the grid. Monday starts with four free periods and Tuesday with one; they end with five and none, while the records say three and two. |
| SessionCap.Replacement | timetable-scheduler/src/main/java/com/university/scheduler/service/TimetableService.java:1284-1301 | The replacement is a free period, or another subject's label with fewer than two sessions that day. |
| SessionCap.BreakTriplesFrom | timetable-scheduler/src/main/java/com/university/scheduler/service/TimetableService.java:1270-1304 | The triple-breaking pass keeps the day's length. |
| SessionCap.BreakTriplesFromClears | timetable-scheduler/src/main/java/com/university/scheduler/service/TimetableService.java:1270-1304 | After the pass, no three consecutive slots hold the same session label. |
| SessionCap.BreakTriplesFromRepairs | timetable-scheduler/src/main/java/com/university/scheduler/service/TimetableService.java:1270-1304 | The pass only turns session slots into free periods or other subjects' labels. |
| SessionCap.ReplaceThird | timetable-scheduler/src/main/java/com/university/scheduler/service/TimetableService.java:1290-1300 | Replacing the third slot of a run creates no new triple. |
| SessionCap.ReplaceThirdRepairs | timetable-scheduler/src/main/java/com/university/scheduler/service/TimetableService.java:1290-1300 | Replacing the third slot is such a repair. |
| SessionCap.RepairedTrans | timetable-scheduler/src/main/java/com/university/scheduler/service/TimetableService.java:1270-1337 | Two repairs in a row are a repair. |
| SessionCap.CapSessions | timetable-scheduler/src/main/java/com/university/scheduler/service/TimetableService.java:1306-1337 | The cap keeps the day's length. |
| SessionCap.CapSessionsAt | timetable-scheduler/src/main/java/com/university/scheduler/service/TimetableService.java:1306-1337 | A slot becomes a free period exactly when it holds a session label already seen twice before it that day. Every other slot is kept. |
| SessionCap.CapSessionsCount | timetable-scheduler/src/main/java/com/university/scheduler/service/TimetableService.java:1321-1337 | Each session label's count on the day becomes `min(count, 2)`. |
| SessionCap.CapSessionsKeeps | timetable-scheduler/src/main/java/com/university/scheduler/service/TimetableService.java:1309-1313 | Breaks and lab labels keep their counts. |
| SessionCap.TripleCount | timetable-scheduler/src/main/java/com/university/scheduler/service/TimetableService.java:1276-1279 | A run of three identical labels means the label occurs at least three times. |
| SessionCap.CapSessionsRepairs | timetable-scheduler/src/main/java/com/university/scheduler/service/TimetableService.java:1306-1337 | The cap only turns session slots into free periods. |
| SessionCap.ValidateAndFix | timetable-scheduler/src/main/java/com/university/scheduler/service/TimetableService.java:1263-1344 | Each day is repaired on its own: first triples, then the cap. |
| SessionCap.FixDaySpec | timetable-scheduler/src/main/java/com/university/scheduler/service/TimetableService.java:1263-1344 | After the repair, no session label appears more than twice on a day. A session label is any text but a free period, a break or a lab slot. No three consecutive slots repeat a session, and only session slots changed. |
| SessionCap.ValidateAndFixSpec | timetable-scheduler/src/main/java/com/university/scheduler/service/TimetableService.java:1263-1344 | The same holds for every day of the week. |
| Allocation.Write | timetable-scheduler/src/main/java/com/university/scheduler/service/TimetableService.java:1064 | Writing one slot keeps the grid's shape. |
| Allocation.TheoryLabelIsNoMarker | timetable-scheduler/src/main/java/com/university/scheduler/service/TimetableService.java:1063 | A theory label is neither "UNALLOCATED" nor "Free Period". |
| Allocation.Remaining | timetable-scheduler/src/main/java/com/university/scheduler/service/TimetableService.java:1035-1047 | The remaining hours have one entry per subject. |
| Allocation.RemainingSpec | timetable-scheduler/src/main/java/com/university/scheduler/service/TimetableService.java:1036-1046 | A subject needs hours exactly when its actual hours fall short of its hours, plus three with a lab. It then needs exactly the difference. |
| Allocation.NeedyFrom | timetable-scheduler/src/main/java/com/university/scheduler/service/TimetableService.java:1049 | The needy subjects are exactly those with hours remaining. |
| Allocation.NeedyOrderMembers | timetable-scheduler/src/main/java/com/university/scheduler/service/TimetableService.java:1049-1050 | The order lists each needy subject once and no other. |
| Allocation.NeedyOrderSorted | timetable-scheduler/src/main/java/com/university/scheduler/service/TimetableService.java:1050 | The order puts larger shortfalls first. |
| Allocation.FirstWithHours | timetable-scheduler/src/main/java/com/university/scheduler/service/TimetableService.java:1061-1070 | Finds the first subject in the order still needing hours, or reports that none does. |
| Allocation.AllocateAt | timetable-scheduler/src/main/java/com/university/scheduler/service/TimetableService.java:1054-1076 | One slot keeps the grid's shape. |
| Allocation.AllocateAll | timetable-scheduler/src/main/java/com/university/scheduler/service/TimetableService.java:1054-1076 | The loop keeps the grid's shape. |
| Allocation.AllocateRemainingSlots | timetable-scheduler/src/main/java/com/university/scheduler/service/TimetableService.java:1030-1081 | The pass keeps the grid's shape. |
| Allocation.AllocationOutcome | timetable-scheduler/src/main/java/com/university/scheduler/service/TimetableService.java:1030-1081 | The pass keeps the grid's shape and one remaining count per subject. |
| Allocation.AllocateAtAllocated | timetable-scheduler/src/main/java/com/university/scheduler/service/TimetableService.java:1055-1075 | One step changes only an unallocated listed slot, to a free period or a listed subject's label. Afterwards the slot is no longer unallocated. |
| Allocation.AllocatedTrans | timetable-scheduler/src/main/java/com/university/scheduler/service/TimetableService.java:1054-1076 | Two runs of such steps are one. |
| Allocation.AllocatedCell | timetable-scheduler/src/main/java/com/university/scheduler/service/TimetableService.java:1054-1076 | A changed slot is no longer unallocated. |
| Allocation.AllocateAllAllocated | timetable-scheduler/src/main/java/com/university/scheduler/service/TimetableService.java:1054-1076 | The loop changes only unallocated listed slots, and leaves no listed slot unallocated. |
| Allocation.LabelRemUpdate | timetable-scheduler/src/main/java/com/university/scheduler/service/TimetableService.java:1065 | Decrementing one subject's remaining hours lowers its label's total by that much. |
| Allocation.LabelRemOfDistinct | timetable-scheduler/src/main/java/com/university/scheduler/service/TimetableService.java:1063 | With distinct labels, a label's remaining hours are its subject's. |
| Allocation.LabelRemAbsent | timetable-scheduler/src/main/java/com/university/scheduler/service/TimetableService.java:1063 | A label of no subject has no remaining hours. |
| Allocation.AllocateAtConserves | timetable-scheduler/src/main/java/com/university/scheduler/service/TimetableService.java:1061-1069 | A label's slots plus its remaining hours stay constant across one step. |
| Allocation.AllocateAllConserves | timetable-scheduler/src/main/java/com/university/scheduler/service/TimetableService.java:1054-1076 | A label's slots plus its remaining hours stay constant across the loop. |
| Allocation.AllocateAllDrains | timetable-scheduler/src/main/java/com/university/scheduler/service/TimetableService.java:1062-1065 | Remaining hours never grow and never drop below zero. |
| Allocation.AllocateAllFreeLast | timetable-scheduler/src/main/java/com/university/scheduler/service/TimetableService.java:1072-1075 | A free period is written only once no listed subject needs hours. |
| Allocation.AllocateAtFree | timetable-scheduler/src/main/java/com/university/scheduler/service/TimetableService.java:1072-1075 | A step that writes a free period changes no remaining hours, and happens only when they are used up. |
| Allocation.AllocateRemainingSlotsSpec | timetable-scheduler/src/main/java/com/university/scheduler/service/TimetableService.java:1030-1081 | Only listed slots that were "UNALLOCATED" change. Each ends as "Free Period" or the label of a subject that needed hours, and no listed slot stays unallocated. |
| Allocation.AllocateRemainingSlotsFreeLast | timetable-scheduler/src/main/java/com/university/scheduler/service/TimetableService.java:1060-1075 | A free period written by the pass means every subject that needed hours received all of them. |
| Allocation.AllocateRemainingSlotsWithinShortfall | timetable-scheduler/src/main/java/com/university/scheduler/service/TimetableService.java:1035-1076 | A subject gains at most its shortfall, and nothing when it needed nothing. |
| TeacherUpdate.RewriteEntries | timetable-scheduler/src/main/java/com/university/scheduler/service/TimetableService.java:1128-1142 | The entry loop goes through exactly when every entry has a subject, and keeps the number of entries. |
| TeacherUpdate.ReassignSubjects | timetable-scheduler/src/main/java/com/university/scheduler/service/TimetableService.java:1149-1156 | The subject loop goes through exactly when every subject has a faculty, and keeps the number of subjects. |
| TeacherUpdate.UpdateTeacherAvailability | timetable-scheduler/src/main/java/com/university/scheduler/service/TimetableService.java:1126-1167 | The update fails, rolling back, exactly when an entry has no subject, or when subjects are reassigned and one has no faculty. On success the subjects keep their number, and the entries keep theirs unless the old timetable is dropped. |
| TeacherUpdate.RewriteEntriesAt | timetable-scheduler/src/main/java/com/university/scheduler/service/TimetableService.java:1130-1141 | `RewriteEntries`, through `RewriteSubject`: only an entry's subject changes. The teacher's name is replaced by the replacement teacher, or the whole subject becomes "Free Period" when there is none, and only while the teacher is unavailable. |
| TeacherUpdate.RewriteKeepsOthers | timetable-scheduler/src/main/java/com/university/scheduler/service/TimetableService.java:1131-1132 | `RewriteEntries`, through `RewriteSubject`: an entry not naming the teacher, or any entry while the teacher stays available, is left exactly as it was. |
| TeacherUpdate.FreedTeacherDisappears | timetable-scheduler/src/main/java/com/university/scheduler/service/TimetableService.java:1136-1138 | `RewriteEntries`, through `RewriteSubject`: without a replacement, every entry afterwards either never named the teacher or is a free period. |
| TeacherUpdate.SelfReplacementKeepsEntries | timetable-scheduler/src/main/java/com/university/scheduler/service/TimetableService.java:1133-1135 | `RewriteEntries`, through `RewriteSubject`: handing a teacher's lessons to the same teacher changes no entry. |
| TeacherUpdate.ReassignSubjectsAt | timetable-scheduler/src/main/java/com/university/scheduler/service/TimetableService.java:1151-1155 | The teacher's subjects name the replacement afterwards; every other subject is unchanged. |
| TeacherUpdate.ReassignRemovesTeacher | timetable-scheduler/src/main/java/com/university/scheduler/service/TimetableService.java:1148-1156 | After a reassignment to someone else, no subject names the old teacher. |
| TeacherUpdate.AvailableKeepsStore | timetable-scheduler/src/main/java/com/university/scheduler/service/TimetableService.java:1131-1148 | While the teacher stays available, a successful update that keeps the old timetable changes nothing. |
| Csv.CellTexts | timetable-scheduler/src/main/java/com/university/scheduler/controller/Timetablecontroller.java:94-95 | Each cell prints as its text, a null cell as "null". |
| Csv.DayLines | timetable-scheduler/src/main/java/com/university/scheduler/controller/Timetablecontroller.java:91-98 | The day lines are written exactly when every day has a row. |
| Csv.DownloadCsv | timetable-scheduler/src/main/java/com/university/scheduler/controller/Timetablecontroller.java:76-100 | The export succeeds exactly when every day has a row. |
| Csv.SplitOn | timetable-scheduler/src/main/java/com/university/scheduler/controller/Timetablecontroller.java:87 | Splitting always yields at least one piece. |
| Csv.SplitOnPiece | timetable-scheduler/src/main/java/com/university/scheduler/controller/Timetablecontroller.java:87 | A piece without the separator splits off whole. |
| Csv.FieldsRoundTrip | timetable-scheduler/src/main/java/com/university/scheduler/controller/Timetablecontroller.java:85-88 | Splitting a written line at its commas gives back its fields, when none holds a comma. |
| Csv.DayLinesSplit | timetable-scheduler/src/main/java/com/university/scheduler/controller/Timetablecontroller.java:91-98 | Splitting the day lines at the line separators gives each day's line, in order, then one empty piece. |
| Csv.CsvLines | timetable-scheduler/src/main/java/com/university/scheduler/controller/Timetablecontroller.java:84-98 | When no field holds a line separator, the text splits into the header line followed by the pieces of the day lines. |
| Csv.CsvRoundTrip | timetable-scheduler/src/main/java/com/university/scheduler/controller/Timetablecontroller.java:84-98 | The text has 1 + \|days\| lines and a final separator. The header is "Day - Time" then each slot label, and each day line is the day then its cells, in order. Reading it back gives the table whenever no field holds a comma or a line separator. |
| QuotedCsv.AsWrittenCsvAmbiguous | timetable-scheduler/src/main/java/com/university/scheduler/controller/Timetablecontroller.java:92-96 | As written, the rows ["a,b", "c"] and ["a", "b,c"], of the same width, give the same text. |
| QuotedCsv.TableRecords | timetable-scheduler/src/main/java/com/university/scheduler/controller/Timetablecontroller.java:84-98 | The records are the header record, then one record per day, with the same fields the export writes. |
| QuotedCsv.DownloadQuotedCsv | timetable-scheduler/src/main/java/com/university/scheduler/controller/Timetablecontroller.java:76-100 | The quoted export succeeds exactly when the unquoted one does. |
| QuotedCsv.ParseUnquoted | timetable-scheduler/src/main/java/com/university/scheduler/controller/Timetablecontroller.java:95 | Reading an unquoted field consumes input. |
| QuotedCsv.UnquotedRoundTrip | timetable-scheduler/src/main/java/com/university/scheduler/controller/Timetablecontroller.java:95 | A field needing no quotes reads back as itself. |
| QuotedCsv.QuotedRoundTrip | timetable-scheduler/src/main/java/com/university/scheduler/controller/Timetablecontroller.java:95 | A quoted field with doubled quotes reads back as itself. |
| QuotedCsv.FieldRoundTrip | timetable-scheduler/src/main/java/com/university/scheduler/controller/Timetablecontroller.java:95 | Every escaped field reads back as itself, stopping where it ends. |
| QuotedCsv.RecordRoundTrip | timetable-scheduler/src/main/java/com/university/scheduler/controller/Timetablecontroller.java:92-97 | An escaped record reads back as its fields. |
| QuotedCsv.DocumentRoundTrip | timetable-scheduler/src/main/java/com/university/scheduler/controller/Timetablecontroller.java:84-98 | An encoded document reads back as its records. |
| QuotedCsv.QuotedCsvRoundTrip | timetable-scheduler/src/main/java/com/university/scheduler/controller/Timetablecontroller.java:84-98 | The quoted export reads back as the header's title and slots and each day's name and cells, whatever characters they hold. |
| QuotedCsv.PlainFieldsUnchanged | timetable-scheduler/src/main/java/com/university/scheduler/controller/Timetablecontroller.java:87 | Fields needing no quotes are written as the unquoted export writes them. |
| QuotedCsv.QuotingKeepsPlainTables | timetable-scheduler/src/main/java/com/university/scheduler/controller/Timetablecontroller.java:84-98 | For tables with no comma, quote or line break, the quoted export equals the one as written. |
| QuotedCsv.PlainDaysUnchanged | timetable-scheduler/src/main/java/com/university/scheduler/controller/Timetablecontroller.java:91-98 | For such tables the quoted day lines equal the written ones. |
| SubjectDefaults.SaveNewSubjects | timetable-scheduler/src/main/java/com/university/scheduler/controller/Timetablecontroller.java:44-57 | The loop keeps the number of request subjects and only appends to the store. It goes through whenever every subject has a name, code and faculty. |
| SubjectDefaults.DefaultRequestSubjects | timetable-scheduler/src/main/java/com/university/scheduler/controller/Timetablecontroller.java:44-60 | A request without subjects changes nothing. Otherwise only the request's subjects change. |
| SubjectDefaults.SaveNewSubjectsAt | timetable-scheduler/src/main/java/com/university/scheduler/controller/Timetablecontroller.java:46-55 | Each subject is left as it was or given the defaults: hours 0 become 3, and a null department becomes the request's. A subject whose code was already stored is untouched. |
| SubjectDefaults.SaveNewSubjectsFails | timetable-scheduler/src/main/java/com/university/scheduler/controller/Timetablecontroller.java:46-55 | The loop stops exactly when some subject would be saved and misses a required column. |
| SubjectDefaults.CodelessSubjectFails | timetable-scheduler/src/main/java/com/university/scheduler/controller/Timetablecontroller.java:46-55 | With a well-formed store, a request holding a subject without a code always stops. |
| SubjectDefaults.FirstCodeless | timetable-scheduler/src/main/java/com/university/scheduler/controller/Timetablecontroller.java:45 | Finds the first subject without a code. |
| SubjectDefaults.SaveKeepsWellFormed | timetable-scheduler/src/main/java/com/university/scheduler/controller/Timetablecontroller.java:47-55 | Saving a complete subject whose code is not stored keeps codes unique. |
| SubjectDefaults.SaveNewSubjectsStore | timetable-scheduler/src/main/java/com/university/scheduler/controller/Timetablecontroller.java:44-57 | Whether or not the loop stops, the store keeps unique codes and complete subjects. |
| SubjectDefaults.SaveNewSubjectsDefaults | timetable-scheduler/src/main/java/com/university/scheduler/controller/Timetablecontroller.java:48-55 | Every subject added to the store has nonzero hours, and a department when the request names one. |
| SubjectDefaults.SaveNewSubjectsStoresAll | timetable-scheduler/src/main/java/com/university/scheduler/controller/Timetablecontroller.java:44-57 | After a run that goes through, every code of the request is stored. |
| SubjectDefaults.AllStoredKeepsStore | timetable-scheduler/src/main/java/com/university/scheduler/controller/Timetablecontroller.java:46-47 | When every code is stored, the loop stores and changes nothing. |
| SubjectDefaults.SaveNewSubjectsIdempotent | timetable-scheduler/src/main/java/com/university/scheduler/controller/Timetablecontroller.java:44-57 | Sending the same subjects again stores nothing more and leaves them as sent. |
| Preferences.AddFacultyPreference | timetable-scheduler/src/main/java/com/university/scheduler/controller/FacultyPreferenceController.java:19-57 | The checks run in the order faculty, days, times. A rejection carries the first missing field's message and happens exactly when a field is missing. The preference is stored, and returned with the success message, exactly when all three are present and the save succeeds. Otherwise the store is unchanged. |

## Left out

- The randomised driver of `TimetableService.java` is not modelled end to end. This covers the shuffles, `Math.random` and double-valued weights of `generateSchedule` (lines 136-178), and `placeOneTheorySession` (lines 315-481). It also covers `createDynamicPriorityList` (lines 1205-1261), `enforceExactFreePeriods`, `fillExtraFreePeriods`, `convertExcessHoursToFreePeriods`, `allocateRemainingHours`, `createAdditionalFreePeriods`, `validateLabBlocks` and `validateAndEnsureAllHoursPlaced`. Reasons: they are random and floating point, and promise no outcome. The grid they leave is a parameter of the helpers.
- The `UNALLOCATED` filling loop of the grid engine's `generateSchedule` (lines 180-216) is not modelled; `allocateRemainingSlots` has the same structure and is modelled.
- `fetchSubjects` and `facultyHasPreferences` read the repositories and are not modelled.
- The stores are sequences passed in and returned. The JPA repositories, `deleteAll`/`saveAll`, and the application wiring are not modelled. A transaction's rollback is the store returned unchanged with a `Failure`.
- The Excel export (`Timetablecontroller.java:105-140`) uses Apache POI, a foreign library.
- Servlet I/O, HTTP status codes and logging are not modelled. The CSV is a returned string, and `println` ends a line with `'\n'`; the platform line separator is not modelled.
- The backtracking engine keys its counters by subject code in a `HashMap`. Its `deleteAll`/`saveAll` calls are outside the model.
- DayScheduler.DailyCaps: stated only for a subject whose code no other subject of the day shares. Subjects sharing a code share one counter, and nothing is stated for them.
- Allocation.AllocateRemainingSlotsWithinShortfall: stated only for subjects with distinct theory labels. Two subjects with the same faculty and name share a label, and nothing is stated for them.
- TeacherUpdate.UpdateTeacherAvailability: the teacher is a non-null string. A null teacher makes `contains` throw, which is not modelled.
- Lists never hold null elements. The elements of a request's `subjects`, `facultyPreferences`, `availableTimeSlots` and `breakTimes` are non-null in the model. In Java a null element throws a `NullPointerException` once it is reached: `getHoursPerWeek` at `Timetableservice.java:53`, `getFaculty` at line 63, and `trim` at lines 76-77. These cases are not modelled.
- Java `int` overflow is not modelled; hours, counts and budgets are unbounded integers.
- Text is ASCII only. The model has no Unicode upper-casing and only the six ASCII characters of the regex class `\s`.
- Subjects have identity semantics in Java, since `Subject` defines no `equals`. The model compares them as values, which is the same for the distinct subjects of one request.
- `TimetableController.java`, the capitalised controller, is not part of this model. Its CSV code duplicates the lowercase controller. It calls a `validateSchedule` method that neither service defines. Its preference check is vacuous, because `isPreferenceMet` always returns true.
- `getFacultyPreferences` and `getAllPreferences` of `FacultyPreferenceController.java` return fixed or stored data and are not modelled.
- `app.py` is a user interface with no logic of its own.
- Two files declare a class `TimetableService` in the same package, so only one of them can compile into the application. Both are modelled, each in its own modules.

## Findings

| source | as written | input that shows it | evidently intended | confidence | as-written member | corrected member |
|---|---|---|---|---|---|---|
| timetable-scheduler/src/main/java/com/university/scheduler/service/TimetableService.java:549-552 | `moveSubjectBetweenDays(map, day, targetDay)` moves a session from the overloaded day into the target's free period. That gives the overloaded day one more free period and the target one fewer. Yet the counts record the opposite. | Monday has four free periods and one session; Tuesday has one free period. After the first move Monday has five and Tuesday none, while the records say three and two. | Move a session from the target into the overloaded day, so the records match the grid and free periods leave the overloaded day. | high, not executed | GridRepair.AsWrittenBookkeepingDrifts | GridRepair.RedistributeKeepsBookkeeping |
| timetable-scheduler/src/main/java/com/university/scheduler/controller/Timetablecontroller.java:92-96 | Every field is written verbatim after a comma, with no quoting. | A Monday row with the cells "a,b" and "c", and one with the cells "a" and "b,c", give the same file. | Quote fields that hold a comma, quote or line break, doubling inner quotes, as section 2 of RFC 4180 requires. The file then reads back as the table. | medium, not executed | QuotedCsv.AsWrittenCsvAmbiguous | QuotedCsv.QuotedCsvRoundTrip |
