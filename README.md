# Course timetable allocator — a Dafny model

This project models the greedy timetable allocator of a faculty scheduling
script (`generate_schedule`) together with the step that turns a lecturer
availability sheet into per-lecturer rules (`load_lecturer_availability`).

* Time is measured in minutes since midnight. A teaching day runs from 07:00
  (420) to 22:00 (1320) in 10-minute slots, 90 of them; one SKS (credit unit)
  lasts 50 minutes. The breaks 12:00–13:00 and 18:00–19:00 never host a
  class.
* Five processing days (Senin … Jumat) and a roster of 22 rooms are fixed.
* A course has a title, an SKS value (absent when it is not numeric), a
  lecturer (a name, or none — then it runs under the placeholder identity
  `DOSEN BELUM ADA`), a class label and a semester.
* A lecturer rule may restrict the days (tried in the rule's order, dropping
  names that are not processing days), give time windows (a class must fit
  wholly in one; both bounds inclusive) and cap the SKS per day (99 when
  unset).
* The allocator walks the courses in a caller-given order (the script
  shuffles them). For each one it drops a course whose SKS is zero or less
  without reporting it, sends a non-numeric one to the unscheduled list and
  otherwise searches days, then rooms, then start slots and books the
  first candidate that lies on the time axis, fits a window, misses the
  breaks, finds its lecturer and room free and keeps the day within the cap.
  Booking marks the room cells, adds the lecturer to the lecturer cells
  (not for the placeholder) and adds the SKS to the day's counter (also for
  the placeholder). A course nothing fits goes to the unscheduled list.

The model is imperative where the script is: the tables are the fields of
class `Allocator.Timetable`, updated in place by `Commit`; the search and
the filters are loops proved against the first-fit specification
`ChosenBy` / `NoneFits`; the booking loop is `BookRun`. The list of
scheduled entries carries the invariant `ScheduleSound` (every entry well
placed, rooms and lecturers never double-booked, daily caps kept), which
`Grid.CommitPreservesInv` keeps across a commit. `Partition.Accounted`
records the fate of every input course, so `GenerateSchedule` states that
each course is dropped, placed exactly once or listed unscheduled exactly
once. A ghost trace of table states ties every processed course to
`Allocator.CourseStep`: the commit of the first feasible candidate, or no
change, with no feasible candidate when the SKS parsed.

The availability step is modelled on the cells already read from the sheet:
the day list (split on commas, each part stripped and title-cased), the time
ranges (every `HH:MM-HH:MM` match of the text) and the daily cap, stored
under the lecturer's name only when at least one of them was given, with a
later row replacing an earlier one. `Availability.Resolve` turns the stored
clock texts into minutes for the allocator.

Three behaviours of the script worth knowing, all modelled as the script has them:

* the days of a rule are tried in the rule's own order, not in the global
  processing order;
* the placeholder lecturer is exempt from the lecturer-busy check but *does*
  accumulate daily SKS and is subject to the default cap of 99;
* a days cell such as `""` or `" All "` is not the word `all`, so it yields a
  list of day names that match no processing day and the course can never be
  placed.

## Model

| member | source | states |
|---|---|---|
| Config.BuildTimeSlots | pandas/coba.py:156-162 | the slot list is exactly the 10-minute times from 07:00 up to but excluding 22:00, strictly increasing |
| Config.SlotTimeIsSlot | pandas/coba.py:156-162 | the k-th slot time (k < 90) is a slot of the day |
| Config.SlotIndex | pandas/coba.py:156-162 | every slot time is the k-th slot for some k < 90 |
| Config.TimeAxisMembers | pandas/coba.py:160-162 | a time is in the built slot list exactly when it is a slot of the day |
| Model.Identity | pandas/coba.py:184 | a named lecturer is booked under the name, a course without one under `DOSEN BELUM ADA`; the identity is that placeholder exactly for such a course or a lecturer of that name |
| Model.NonPositive | pandas/coba.py:176-178 | a course is dropped exactly when its SKS parsed and is zero or less, that is when its duration of 50 minutes per SKS is not positive |
| Constraints.RuleFor | pandas/coba.py:186 | a lecturer without a recorded rule gets the empty rule, one with a rule gets it unchanged |
| Constraints.CandidateDays | pandas/coba.py:187-189 | a day is tried exactly when it is a processing day and, under a days rule, one of the listed days; without a days rule the five processing days are tried in the global order, under one the listed processing days in their listed order |
| Constraints.Cap | pandas/coba.py:193 | the daily cap is the rule's own when it sets one, 99 otherwise |
| Constraints.FilterDays | pandas/coba.py:189 | a day is kept exactly when it is listed and a processing day; no days are added |
| Constraints.FilterKeepsListedOrder | pandas/coba.py:187-189 | a listed day sequence made only of processing days is kept unchanged, in its listed order |
| Constraints.FilterDaysAppend | pandas/coba.py:189 | the kept days of a concatenation are the kept days of each part, in order, so the listed order survives mixed-in names |
| Constraints.FilterIsSubsequence | pandas/coba.py:189 | the i-th tried day appears in the listed days at a position no earlier than i |
| Constraints.ListedDaysKeepTheirOrder | pandas/coba.py:187-189 | a days rule naming only processing days is tried exactly in its listed order, not the global one |
| Constraints.WithinTimeRanges | pandas/coba.py:213-222 | the window test passes exactly when there are no windows or some window contains start and end (inclusive bounds) |
| Schedule.PlacedDayAllowed | pandas/coba.py:187-189 | a placed entry lies on a processing day and, under a days rule, on one of the listed days |
| Schedule.EntryClearOfBreaks | pandas/coba.py:224-225 | a placed entry's whole interval is disjoint from both break periods |
| Schedule.BreaksStartOnSlots | pandas/coba.py:46 | each break period starts on a slot and is non-empty |
| Schedule.SumSksAppend | pandas/coba.py:241 | appending an entry adds its SKS to exactly its own day and lecturer sum |
| Schedule.SumSksCoversPair | pandas/coba.py:193-196 | the day's SKS sum of a lecturer is at least the SKS of any two of that day's entries |
| Schedule.SumSksCoversOne | pandas/coba.py:193-196 | the day's SKS sum of a lecturer is at least the SKS of any one of that day's entries |
| Schedule.SumSksNonNegative | pandas/coba.py:169 | with non-negative SKS a day's sum is non-negative |
| Schedule.SameDayPairWithinCap | pandas/coba.py:193-196 | in a sound schedule two entries of one lecturer on one day together stay within the lecturer's cap |
| Grid.SksGet | pandas/coba.py:194 | a counter read gives the stored value, and 0 for a day or lecturer without a counter |
| Grid.RoomTakenAppend | pandas/coba.py:236-237 | a room cell is taken after an append exactly when it was before or the new entry covers it |
| Grid.LecturerTakenAppend | pandas/coba.py:238-239 | a lecturer cell is taken after an append exactly when it was before or the new entry (not the placeholder) covers it |
| Grid.FreeRoomMeansNoOverlap | pandas/coba.py:228-230 | a candidate whose room cells are free overlaps no earlier entry in that room on that day |
| Grid.FreeLecturerMeansNoOverlap | pandas/coba.py:227-230 | a candidate whose lecturer cells are free overlaps no earlier entry of that lecturer on that day |
| Grid.FreeRoomNoOverlaps | pandas/coba.py:228-230 | the same for all earlier entries at once |
| Grid.FreeLecturerNoOverlaps | pandas/coba.py:227-230 | the same for all earlier entries of an assigned lecturer at once |
| Grid.AppendKeepsRoomsExclusive | pandas/coba.py:228-237 | appending an entry that overlaps no same-room same-day entry keeps rooms exclusive |
| Grid.AppendKeepsLecturersExclusive | pandas/coba.py:227-239 | appending an entry that overlaps no same-lecturer same-day entry keeps lecturers exclusive |
| Grid.AppendKeepsCaps | pandas/coba.py:193-196 | appending an entry that keeps its day within the cap keeps every day within its cap |
| Grid.AppendKeepsSound | pandas/coba.py:230-241 | a well-placed, conflict-free, within-cap entry keeps the schedule sound |
| Grid.AppendKeepsWellPlaced | pandas/coba.py:231-235 | appending a well-placed entry keeps every entry well placed |
| Grid.CommitKeepsTables | pandas/coba.py:236-241 | after a commit the room table, lecturer table and counters still describe exactly the scheduled entries |
| Grid.CommitPreservesInv | pandas/coba.py:230-243 | committing a candidate that passes every filter preserves the table invariant and the soundness of the schedule |
| Grid.EmptyRoomGrid | pandas/coba.py:164 | one free cell for every processing day, roster room and slot, and no other |
| Grid.EmptyLecturerGrid | pandas/coba.py:165 | one empty lecturer set for every processing day and slot, and no other |
| Grid.ZeroCounters | pandas/coba.py:168-169 | a zero counter for every processing day and named lecturer, and no other |
| Grid.FreshSatisfiesInv | pandas/coba.py:164-172 | empty tables and an empty schedule satisfy the invariant |
| Partition.DistinctElementsSize | pandas/coba.py:171 | a duplicate-free sequence has as many distinct elements as entries |
| Partition.BelowSize | pandas/coba.py:171 | the set below n has n elements |
| Partition.PermutationCovers | pandas/coba.py:171-174 | a shuffled processing order visits every course index |
| Partition.AccountedAtStart | pandas/coba.py:172 | before the loop every course is pending and both result lists are empty |
| Partition.AccountedStep | pandas/coba.py:174-246 | recording one more course's fate keeps every course accounted for |
| Partition.AccountedPartition | pandas/coba.py:174-248 | once every course is processed none is pending, no two share a result position, and every result position comes from a course |
| Allocator.CandidateEntry | pandas/coba.py:202-235 | when the course's SKS is the one given, the entry of a candidate comes from the course (title, SKS, semester, class, lecturer identity); it lies on the given day, room and start, and lasts 50 minutes per SKS |
| Allocator.SlotsToBook | pandas/coba.py:205-209 | the booked run is start, start+10, … up to but excluding the end |
| Allocator.RunMembers | pandas/coba.py:205-209 | a slot is in the booked run exactly when it lies in [start, end) |
| Allocator.RunIsSlots | pandas/coba.py:205-211 | every time of a run ending by 22:00 is a slot |
| Allocator.FitsIffEndsByClose | pandas/coba.py:211 | every booked time is on the time axis exactly when the candidate ends by 22:00 |
| Allocator.MarkRoomRun | pandas/coba.py:236-237 | defines the room grid with the first n cells of a run marked; MarkRoomRunCells states its effect |
| Allocator.AddLecturerRun | pandas/coba.py:238-239 | defines the lecturer grid with the identity added along the first n cells of a run; AddLecturerRunCells states its effect |
| Allocator.MarkRoomRunCells | pandas/coba.py:236-237 | marking a run leaves the table's cells unchanged in number and sets exactly the run's cells |
| Allocator.AddLecturerRunCells | pandas/coba.py:238-239 | adding the lecturer along a run changes exactly the run's cells, by adding that one name |
| Allocator.RoomRunIsCommitRooms | pandas/coba.py:236-237 | marking the booked run sets exactly the cells of [start, end) in the entry's room |
| Allocator.LecturerRunIsCommitLecturers | pandas/coba.py:238-239 | adding the lecturer along the run changes exactly the cells of [start, end) on that day |
| Allocator.BookRun | pandas/coba.py:236-239 | the booking loop marks the room along the whole run and adds the lecturer to every cell of it, the placeholder to none |
| Allocator.BookedRunIsCommitStep | pandas/coba.py:236-241 | booking the run and bumping the counter is the commit step of the specification |
| Allocator.CandidateFilters | pandas/coba.py:211-230 | a candidate passes the search exactly when it ends by 22:00, fits a window, misses the breaks and finds lecturer and room free |
| Allocator.BreakTestMatches | pandas/coba.py:224-225 | the break test on the run fails exactly when the interval touches a break |
| Allocator.FreeTestsMatch | pandas/coba.py:227-228 | the lecturer and room tests on the run are the freeness of [start, end) |
| Allocator.NextSlot | pandas/coba.py:201 | a rejected start slot moves the search to the next slot with nothing feasible skipped |
| Allocator.NextRoom | pandas/coba.py:199-201 | after a room's last slot the search moves to the next room with nothing feasible skipped |
| Allocator.NextDay | pandas/coba.py:189-199 | after a day's last room the search moves to the next day with nothing feasible skipped |
| Allocator.SkipFullDay | pandas/coba.py:193-196 | a day that would pass the lecturer's cap holds no feasible candidate |
| Allocator.NoDayLeft | pandas/coba.py:189 | past the last candidate day no candidate at all is feasible |
| Allocator.TraceStep | pandas/coba.py:174-246 | settling the course at the next processing position extends the trace of table states, keeping every earlier step and its outcome |
| Allocator.Timetable.constructor | pandas/coba.py:164-172 | empty tables satisfying the invariant, with a zero counter for exactly the named lecturers on each day |
| Allocator.Timetable.CheckCandidate | pandas/coba.py:202-230 | the filter sequence accepts a candidate exactly when committing it is allowed |
| Allocator.Timetable.SearchRoom | pandas/coba.py:201-243 | in one room, the first accepted start slot, or none with nothing feasible in that room |
| Allocator.Timetable.SearchDay | pandas/coba.py:198-243 | on one day, the first accepted room and slot, or none with nothing feasible on that day |
| Allocator.Timetable.FindPlacement | pandas/coba.py:189-243 | the first feasible candidate in day, room, slot order, or none when nothing is feasible |
| Allocator.Timetable.Commit | pandas/coba.py:230-241 | the new tables and schedule are the commit step of the old ones; the unscheduled list is untouched |
| Allocator.Timetable.Allocate | pandas/coba.py:183-246 | placing keeps the invariant and appends the first-fit entry; failing changes nothing and nothing fits |
| Allocator.Timetable.ProcessCourse | pandas/coba.py:174-246 | exactly non-positive SKS is dropped silently, non-numeric SKS is unplaced; a placed course commits the first feasible candidate of the search (`ChosenBy` and `CommitStep` of the old tables); an unplaced course with parsed SKS had no feasible candidate (`NoneFits`); anything but a placement leaves the tables unchanged |
| Allocator.Timetable.ProcessAll | pandas/coba.py:171-246 | after the pass the invariant holds, every processed course is accounted for in the result lists, and a trace of table states links each processed course to its step: first-fit commit, or nothing changed with nothing feasible |
| Allocator.GenerateSchedule | pandas/coba.py:152-248 | the scheduled list is sound; each course is dropped exactly when its SKS is non-positive, is otherwise placed once or listed unscheduled once, and each result comes from one course; from empty tables, the j-th processed course either commits the first feasible candidate against the tables left by the earlier courses or changes nothing, and then, when its SKS parsed, had no feasible candidate |
| Availability.LowerStr | pandas/coba.py:127 | lower-casing maps each character to its lower case and keeps the length |
| Availability.IsAll | pandas/coba.py:127 | a text reads `all` exactly when it is the three letters a, l, l in any capitalisation |
| Availability.Title | pandas/coba.py:128 | title-casing changes only the case of letters: its lower-case form is the input's |
| Availability.TitleIgnoresCase | pandas/coba.py:128 | title-casing does not depend on the letters' case |
| Availability.TitleKeepsLetters | pandas/coba.py:128 | title-casing changes only the case of letters |
| Availability.TitleIdempotent | pandas/coba.py:128 | title-casing twice is title-casing once |
| Availability.LowerRunTitled | pandas/coba.py:128 | a lower-case run after a cased letter is left alone by title-casing |
| Availability.CapitalisedTitled | pandas/coba.py:128 | a capitalised word is its own title case |
| Availability.DayNameFacts | pandas/coba.py:25 | each processing day name is capitalised, comma-free and has no trailing space |
| Availability.DayNamesAreTitled | pandas/coba.py:25 | each processing day name is unchanged by stripping and title-casing |
| Availability.DayNameNormalises | pandas/coba.py:128 | any case variant of a processing day name title-cases to that name |
| Availability.IndexOfComma | pandas/coba.py:128 | the position found holds the first comma |
| Availability.Split | pandas/coba.py:128 | splitting yields at least one part and no part holds a comma |
| Availability.JoinSplit | pandas/coba.py:128 | joining the parts with commas gives back the text |
| Availability.SplitJoin | pandas/coba.py:128 | splitting comma-joined comma-free parts gives back the parts |
| Availability.LeadingSpaces | pandas/coba.py:128 | the count covers exactly the leading whitespace |
| Availability.TrailingSpaces | pandas/coba.py:128 | the count covers exactly the trailing whitespace |
| Availability.Strip | pandas/coba.py:128 | a stripped text neither starts nor ends with whitespace |
| Availability.StripIsTrimmedInfix | pandas/coba.py:128 | stripping removes only whitespace, and only from both ends |
| Availability.StripTrimmed | pandas/coba.py:128 | a text without whitespace at its ends is left unchanged |
| Availability.StripIdempotent | pandas/coba.py:128 | stripping twice is stripping once |
| Availability.NormaliseAll | pandas/coba.py:128 | each listed day is the stripped, title-cased part at the same position |
| Availability.ParseDays | pandas/coba.py:128 | one day per comma-separated part, each equal up to case to that part stripped |
| Availability.DayListRoundTrip | pandas/coba.py:126-128 | a comma-joined list of processing day names reads back as that list |
| Availability.NormalisedFixed | pandas/coba.py:128 | parts already normal are kept as they are |
| Availability.DayListNormalises | pandas/coba.py:126-128 | a cell whose parts are case and space variants of day names reads as those names |
| Availability.MatchStarts | pandas/coba.py:133 | reported positions increase, each at least a match length after the previous one and with room for a match |
| Availability.MatchStartsFound | pandas/coba.py:133 | a range pattern starts at every reported position |
| Availability.MatchStartsComplete | pandas/coba.py:133 | every range pattern in the text is found or overlaps a found one |
| Availability.PairsAt | pandas/coba.py:133 | each pair is the two clock texts at the match position |
| Availability.FindRanges | pandas/coba.py:133 | one pair per match of the left-to-right scan, in scan order; the pair at a match start holds the five characters there and the five after the dash, both HH:MM texts |
| Availability.ClockMinutes | pandas/coba.py:217-218 | a parsed clock text is a minute of the day |
| Availability.FormatClock | pandas/coba.py:232 | a formatted minute is an HH:MM text |
| Availability.ClockRoundTrip | pandas/coba.py:217-232 | formatting a minute of the day and parsing it back gives the minute |
| Availability.ClockTextRoundTrip | pandas/coba.py:217-218 | a valid clock text formatted back from its minutes is the same text |
| Availability.ResolveRanges | pandas/coba.py:216-218 | the ranges resolve exactly when every clock text is valid, and then pairwise into minutes |
| Availability.Resolve | pandas/coba.py:214-218 | resolving keeps the days and the cap and whether windows were given; with windows it succeeds exactly when every clock text is valid, and the windows are then those texts in minutes, pair by pair |
| Availability.DaysKey | pandas/coba.py:126-128 | the days key is set exactly when the cell is text other than `all`, with one day per comma-separated part |
| Availability.TimesKey | pandas/coba.py:131-135 | the time-ranges key is set exactly when the cell is text other than `all` holding at least one match, and then holds all the matched ranges |
| Availability.RuleOfRow | pandas/coba.py:124-145 | a row yields a record exactly when it sets at least one of the three keys |
| Availability.DayTextSetsDays | pandas/coba.py:126-128 | a days text other than `all` sets a day list with one entry per comma part, and so a rule |
| Availability.UnconstrainedRowFilesNothing | pandas/coba.py:126-146 | a row with `all` or non-text cells and no cap files no rule |
| Availability.RuleOfRowFields | pandas/coba.py:124-146 | a filed rule carries the row's cap and its day list when one was given; it has time ranges exactly when the times cell is text other than `all` with at least one match, and they are then the matched ranges |
| Availability.FilesBy | pandas/coba.py:120-146 | defines when a row files a record under a name: it has that non-empty name and yields a record |
| Availability.FileRowBy | pandas/coba.py:145-146 | defines the table after one row, the row's record replacing any earlier one for its name |
| Availability.FileRowsBy | pandas/coba.py:119-146 | defines the table after the rows, in row order |
| Availability.FileRowEffect | pandas/coba.py:145-146 | after one row a name has a record exactly when it had one or the row files one, and the row's record wins |
| Availability.FileRowsByKeys | pandas/coba.py:119-146 | for any record builder, a name has a record after the rows exactly when it had one before or some row files one |
| Availability.FileRowsByLastWins | pandas/coba.py:119-146 | for any record builder, the record of a name is the one of the last row filing it |
| Availability.Files | pandas/coba.py:120-146 | the loader's instance of FilesBy, with the record of RuleOfRow |
| Availability.FileRow | pandas/coba.py:145-146 | the loader's instance of FileRowBy |
| Availability.FileRows | pandas/coba.py:119-146 | the loader's instance of FileRowsBy |
| Availability.FileRowsKeys | pandas/coba.py:119-146 | a name has a rule after the rows exactly when it had one before or some row files one |
| Availability.FileRowsLastWins | pandas/coba.py:146 | the rule of a name is the one of the last row filing it |
| Availability.AvailabilityTable.constructor | pandas/coba.py:118 | the rule table starts empty |
| Availability.AvailabilityTable.AddRow | pandas/coba.py:120-146 | one row files its rule under its name, or changes nothing |
| Availability.AvailabilityTable.AddRows | pandas/coba.py:119-146 | the table after the loop is the rows filed in order |
| Availability.LoadAvailability | pandas/coba.py:118-149 | a name has a rule exactly when some row files one, and the rule is that of the last such row |

## Left out

- Reading and writing the spreadsheets (`load_course_data`, `save_schedule_to_excel`, the sheet per lecturer, the failure to open the availability file that yields no rules) and the renaming of the sheet's columns: file I/O; the model starts from the cells already read.
- Console output and `sys.exit`: these only report.
- Both shuffles: the processing order is a parameter constrained to be a permutation of the course positions, and the room order is a function of the processing position and the candidate-day position, each a permutation of the roster; the shuffled roster is not kept between courses.
- Floating-point SKS and cap values: an SKS is modelled as an already-truncated integer, or as absent when the script's conversion rejects it (text, or NaN), which sends the course to the unscheduled list; the cap cell as an already-converted integer or absent, so text caps and their conversion are not modelled.
- An infinite SKS: the script's integer conversion raises an overflow error that its error handler does not catch, so the script stops; the model has no such input.
- `Allocator.GenerateSchedule`: rules holding a time pair that is not a valid `HH:MM` (such as `25:00-26:00`) are not modelled. The script parses the windows one at a time while testing a candidate and raises only when, for a candidate that has passed the cap and time-axis tests, its window loop reaches an invalid pair before any window containing the candidate; a rule like `07:00-22:00, 25:00-26:00` therefore never raises and schedules normally. In the model `Availability.Resolve` returns no rule for any rule with an invalid pair, and `GenerateSchedule` takes rules whose windows are already in minutes (no member chains `LoadAvailability`, `Resolve` and `GenerateSchedule`), so the model has no counterpart for such a lecturer, whether or not the script would raise.
- `Allocator.GenerateSchedule`: the semester is carried as an integer. The script converts it only when it places the course, truncating a fractional value; a cell the conversion rejects (NaN, or text such as `3.0`) makes the script raise at that placement, which is not modelled.
- `Allocator.GenerateSchedule`: the overflow the script's date arithmetic raises for an SKS so large that its duration exceeds the representable time span is not modelled. It can only be reached for a lecturer whose cap admits that SKS, since at the default cap of 99 the cap test skips every day first; on unbounded integers such a course fits nowhere and is listed unscheduled. Entries hold minutes, with `Availability.FormatClock` giving their `HH:MM` form.
- The entry's SKS field holds the parsed integer, not the course's raw SKS cell.
- The nested day/room/slot dictionaries are flat maps keyed by tuples.
- `Availability.LowerStr`, `Availability.Title` and `Availability.IsSpace` cover ASCII letters and the whitespace `str.strip` removes in the ASCII range; Unicode case mapping, other Unicode whitespace and non-ASCII `\d` digits are not modelled.
- A lecturer name cell that is not text, or not a string after reading, is modelled as absent or as text; the script's handling of other cell types is not modelled.
