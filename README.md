# Sched_LocalSearch core, modelled in Dafny

Sched_LocalSearch builds weekly timetables for a school by local search.

**The problem.** An instance has:
- classes and subjects;
- professors, each teaching exactly one subject and declaring one day of the week on which they would rather not teach;
- a number of days, and of hours per day;
- a weekly number of hours per subject;
- an optional cap on one subject's hours per day;
- an optional cap on a professor's weekly hours.

**The schedule.** A solution (`Sched_Output`) is a class grid saying which professor teaches each class at each day and hour, or -1 when the hour is free. It is mirrored by a professor grid saying which class each professor teaches at each hour. The solution also keeps several counters up to date:
- the professor each class has for each subject;
- daily and weekly hours per class and subject;
- weekly hours per professor;
- each professor's assigned day off.

**Costs.** Four components score a solution:
- professors teaching on their declared day;
- hours beyond the daily subject cap, summed over every class, day and subject;
- weekly hours beyond the professor cap;
- gaps between one subject's hours on a day.

A fifth, hard component counts free class hours.

**Search.** Three neighbourhoods move between solutions:
- exchange two hours of a class;
- give a free class hour to a professor;
- exchange the professors of one subject between two classes.

Each neighbourhood has an incremental delta for each cost it affects. A greedy construction builds a starting solution.

**How the model is organised.**
- The solution is a Dafny class, `Output.Schedule`, with the source's fields.
- Its mutators are proved against value-level specifications in `ScheduleState`: `Assigned`, `Freed`, `SwapHoursResult`, `Exchanged` and `Moved`.
- The class invariant `Valid` states that the grids mirror each other and that every counter equals the count it caches.
- Costs are functions over that state. The source's loops are methods proved equal to those functions.
- Each incremental delta is a method proved equal to a delta function. A lemma then relates that function to the change in the full cost.
- Move enumeration (`FirstMove`, `NextMove`, `AnyNextMove`) is proved against the order the move types define.
- `RandomMove` takes its draws as a parameter `rand: nat -> nat`.
- The greedy construction is proved to give a valid solution with one professor per class and subject. Each class and subject gets either no hours or exactly its weekly target.

**Where the code and its documentation disagree (the model follows the code):**
- The header declares `AssignHour`, `FreeHour` and `SwapHours` as `void` (Sched_Data.hh:155-157), but the definitions return `bool` (Sched_Data.cc:772, 800, 833). The model returns the flag.
- The SwapHours feasibility test special-cases an instance with a single class (Sched_SwapHours_NHE.cc:89-91). There it accepts every move whose two hours hold different contents, without checking the professors' hours. It does not depend on how many professors a class has.
- Not every incremental delta is exact:
  - The AssignProf unavailability delta looks only at the moved class's row (see Findings).
  - The AssignProf contiguity delta ignores gaps that the new hour closes (see Left out).
- When no professor fits, the greedy construction relaxes by a fixed rule, not by comparing the two costs:
  - It drops the unavailability check when the unavailability weight is below (extra + 1) times the daily-cap weight, or when the cap has reached HoursXDay.
  - Otherwise it allows one more hour per day.

## Model

| member | source | states |
|---|---|---|
| Input.DayIndex | Sched_Data.hh:14-23 | every day of the enumeration is numbered below 7 |
| Input.DayOf | Sched_Data.hh:14-23 | the day numbered i has number i |
| Input.DayNumbering | Sched_Data.hh:14-23 | the numbering of days is a bijection onto 0..6, in both directions |
| Input.ParseDay | Sched_Data.cc:102-122 | a token parses to a day exactly when it is one of the seven day names, and the day it yields is the one whose name the token is; anything else is the error path |
| Input.ParseDayNames | Sched_Data.cc:102-122 | the name of every day parses back to that day |
| Input.DefaultSubjectMaxHoursXDay | Sched_Data.cc:42-55 | a daily subject cap of 0 (absent) becomes HoursXDay; any other value is kept |
| Input.DefaultProfMaxWeeklyHours | Sched_Data.cc:44-61 | a weekly professor cap of 0 (absent) becomes HoursXDay times the number of days; any other value is kept |
| Costs.UnspecifiedSubjectCapDisablesLimit | Sched_Data.cc:51-55 | with the default daily subject cap, no valid solution has a daily-cap violation |
| Costs.UnspecifiedWeeklyCapDisablesLimit | Sched_Data.cc:57-61 | with the default weekly professor cap, no valid solution has a weekly-cap violation |
| Input.BuildProfsXSubject | Sched_Data.cc:127-132 | the professors of each subject are listed in ascending order; each list holds exactly the professors of that subject, and every professor appears |
| Input.ProfInExactlyOneList | Sched_Data.cc:127-132 | a professor is in a subject's list if and only if it is the subject they teach |
| Neighborhood.Uniform | Sched_SwapHours_NHE.cc:58-78 | a draw of a random integer lies within the bounds it was asked for |
| Output.Schedule.constructor | Sched_Data.cc:393-406 | a new solution is the empty schedule of its instance and satisfies the invariant |
| Output.Schedule.Reset | Sched_Data.cc:425-460 | after a reset the solution is the empty schedule, whatever it was before |
| Output.Schedule.ResetClasses | Sched_Data.cc:429-447 | the class-side grids and counters become those of the empty schedule; nothing else changes |
| Output.Schedule.ResetProfs | Sched_Data.cc:450-459 | the professor-side grids, weekly hours and days off become those of the empty schedule; nothing else changes |
| Output.Schedule.Equals | Sched_Data.cc:374-391 | two solutions compare equal exactly when their whole states are equal |
| Output.Schedule.ClassSchedule | Sched_Data.hh:124 | the cell is -1 or a professor, and a professor is mirrored by the class in the professor grid |
| Output.Schedule.ProfSchedule | Sched_Data.hh:133 | the cell is -1 or a class, and a class is mirrored by the professor in the class grid |
| Output.Schedule.IsClassHourFree | Sched_Data.hh:160 | a class hour is free exactly when no professor's grid holds that class at that hour |
| Output.Schedule.IsProfHourFree | Sched_Data.hh:161 | a professor hour is free exactly when no class grid holds that professor at that hour |
| Output.Schedule.SubjectProf | Sched_Data.hh:126 | a class has no professor for a subject exactly when it has no hour of it; otherwise that professor teaches the subject |
| Output.Schedule.DailySubjectAssignedHours | Sched_Data.hh:127 | the counter equals the number of the day's hours taught by professors of the subject |
| Output.Schedule.WeeklySubjectAssignedHours | Sched_Data.hh:128 | the counter equals the number of the week's hours of the subject |
| Output.Schedule.WeeklySubjectResidualHours | Sched_Data.hh:129 | the residual is non-negative, and residual plus assigned hours equals the subject's weekly target |
| Output.Schedule.ProfWeeklyAssignedHours | Sched_Data.hh:134 | a professor's weekly hours equal the number of busy hours in their grid |
| Output.Schedule.ProfAssignedDayOff | Sched_Data.hh:135 | the day off is the declared day exactly when that day is free; any day off is a real day free for the professor |
| Output.Schedule.HasHourOn | Sched_Data.cc:907-944 | the test is true exactly when the professor's row for that day is not all free |
| Output.Schedule.ComputeProfDayOff | Sched_Data.cc:900-949 | only the professor's day off changes, becoming the declared day if free, otherwise the first free day, otherwise -1 |
| Output.Schedule.WriteHour | Sched_Data.cc:779-792 | both grids, the class's professor and all counters are those of the assigned state, with days off not yet recomputed |
| Output.Schedule.AssignHour | Sched_Data.cc:772-797 | succeeds exactly when the class hour and the professor hour are both free; on success the state is Assigned, otherwise unchanged |
| Output.Schedule.FreeHour | Sched_Data.cc:800-831 | succeeds exactly when the class hour is taken; on success the state is Freed, otherwise unchanged |
| Output.Schedule.SwapHours | Sched_Data.cc:833-883 | flag and new state are those of SwapHoursResult: an exchange when both hours are taken, a move when one is, nothing when the contents are equal |
| Output.Schedule.ExchangeHours | Sched_Data.cc:841-857 | the state after freeing both hours and reassigning them crosswise is Exchanged |
| Output.Schedule.MoveHour | Sched_Data.cc:859-879 | the state after moving the only taken hour to the free one is Moved |
| ScheduleState.FirstFreeDayFrom | Sched_Data.cc:923-944 | the result is the lowest free day other than the declared one, or -1 when there is none |
| ScheduleState.DayOffCases | Sched_Data.cc:900-949 | the day off is the declared day if it is free, else the lowest other free day, else -1 |
| ScheduleState.Empty | Sched_Data.cc:425-460 | the empty schedule satisfies the invariant |
| ScheduleState.EmptyValid | Sched_Data.cc:425-460 | the empty schedule mirrors itself and all its counters are zero and consistent |
| ScheduleState.AssignedValid | Sched_Data.cc:772-797 | a permitted assignment keeps the invariant |
| ScheduleState.AssignedCells | Sched_Data.cc:779-792 | the assigned cell holds the professor in the class grid and the class in the professor grid, every other cell is unchanged, and only that professor's weekly hours grow, by one |
| ScheduleState.AssignedCounters | Sched_Data.cc:788-792 | after a permitted assignment every counter still equals the count it caches |
| ScheduleState.FreedValid | Sched_Data.cc:800-831 | freeing an occupied hour keeps the invariant |
| ScheduleState.FreedCells | Sched_Data.cc:811-819 | the freed cell is -1 in both grids, every other cell is unchanged, and only the occupant's weekly hours drop, by one |
| ScheduleState.FreedCounters | Sched_Data.cc:815-826 | after freeing an occupied hour every counter still equals the count it caches |
| ScheduleState.AssignThenFree | Sched_Data.cc:772-831 | an assigned hour holds the professor, and freeing it restores the previous state |
| ScheduleState.FreeThenAssign | Sched_Data.cc:772-831 | with at most one professor per class and subject, the professor just freed may be reassigned there, and doing so restores the previous state |
| ScheduleState.AssignedOccupied | Sched_Data.cc:772-797 | an assignment adds exactly one occupied class hour |
| ScheduleState.FreedOccupied | Sched_Data.cc:800-831 | freeing removes exactly one occupied class hour |
| ScheduleState.SwapHoursResult | Sched_Data.cc:833-883 | a refused swap leaves the state unchanged |
| ScheduleState.SwapHoursSucceeds | Sched_Data.cc:833-883 | a swap succeeds exactly when the two contents differ and each present professor is free at the other hour |
| ScheduleState.SwapHoursValid | Sched_Data.cc:833-883 | every swap keeps the invariant |
| ScheduleState.ExchangeSteps | Sched_Data.cc:841-857 | the intermediate reassignments of an exchange are all permitted |
| ScheduleState.SwapHoursExchanges | Sched_Data.cc:833-883 | a successful swap exchanges the two class cells and leaves all others unchanged |
| ScheduleState.SwapHoursKeepsLoad | Sched_Data.cc:833-883 | a swap keeps the number of occupied hours and every professor's weekly hours |
| ScheduleState.SwapHoursProfWeeks | Sched_Data.cc:833-883 | after a swap, each moved professor's week has the old hour freed and the new one taken; other professors' weeks are unchanged |
| ScheduleState.SwapHoursKeepsOneProf | Sched_Data.cc:833-883 | a swap keeps at most one professor per class and subject |
| ScheduleState.AssignedKeepsOneProf | Sched_Data.cc:772-797 | assigning a professor the class may take for that subject (its recorded one, or any when the subject is untaught) keeps one professor per class and subject |
| ScheduleState.FreedKeepsOneProf | Sched_Data.cc:800-831 | freeing keeps one professor per class and subject |
| ScheduleState.ValidDetermined | Sched_Data.cc:374-391 | a valid state is determined by its class grid and class-professor table, so the remaining fields compared by equality follow from those two |
| Costs.ProfUnavailabilityCostIsBusyDeclaredDays | Sched_CostComponents.cc:8-18 | the number of professors whose day off is not their declared day equals the number busy on their declared day |
| Costs.ProfUnavailabilityCostCounts | Sched_CostComponents.cc:8-18 | the unavailability cost counts the professors busy on their declared day, so it is at most the number of professors |
| Costs.ComputeProfUnavailabilityCost | Sched_CostComponents.cc:8-18 | the loop returns the unavailability cost of the current solution |
| Costs.MaxSubjectHoursXDayCostZero | Sched_CostComponents.cc:37-49 | the daily-cap cost is zero exactly when every class, day and subject stays within the cap |
| Costs.ComputeMaxSubjectHoursXDayCost | Sched_CostComponents.cc:37-49 | the loop returns the daily-cap cost of the current solution |
| Costs.ProfMaxWeeklyHoursCostZero | Sched_CostComponents.cc:65-75 | the weekly-cap cost is zero exactly when every professor's busy hours stay within the cap |
| Costs.ComputeProfMaxWeeklyHoursCost | Sched_CostComponents.cc:65-75 | the loop returns the weekly-cap cost of the current solution |
| Costs.ShortDaysHaveNoContiguityCost | Sched_CostComponents.cc:88-95 | with fewer than three hours per day the contiguity cost is zero |
| Costs.SubjectDayGaps | Sched_CostComponents.cc:101-110 | the inner loop counts the gaps between one subject's hours on one day |
| Costs.ClassContiguityGaps | Sched_CostComponents.cc:96-112 | the middle loops sum those gaps over the subjects of one class |
| Costs.ComputeScheduleContiguityCost | Sched_CostComponents.cc:88-114 | the loops return the contiguity cost of the current solution |
| Costs.OccupiedIsTotalLoad | Sched_CostComponents.cc:144-156 | the occupied class hours equal the sum of the professors' weekly hours |
| Costs.SolutionCompleteIsUnassignedLoad | Sched_CostComponents.cc:144-156 | the free class hours plus the total professor load equal the size of the grid |
| Costs.ComputeSolutionCompleteCost | Sched_CostComponents.cc:144-156 | the loop returns the number of free class hours |
| SwapHoursNeighborhood.LessIsStrictTotalOrder | Sched_SwapHours_NHE.cc:17-39 | the move order is a strict total order, and move equality is field-wise equality |
| SwapHoursNeighborhood.FeasibleMoveIffSwapSucceeds | Sched_SwapHours_NHE.cc:80-99 | a move is feasible exactly when SwapHours on it would succeed |
| SwapHoursNeighborhood.MakeMove | Sched_SwapHours_NHE.cc:101-104 | the new state is SwapHours' result; a feasible move exchanges the two cells and nothing else; occupied hours, weekly loads and one professor per subject are kept |
| SwapHoursNeighborhood.StartIsLeast | Sched_SwapHours_NHE.cc:106-119 | no move precedes the starting move |
| SwapHoursNeighborhood.AnyNextMove | Sched_SwapHours_NHE.cc:133-187 | the next move is the immediate successor in the move order; no next move exactly when none follows |
| SwapHoursNeighborhood.FirstMove | Sched_SwapHours_NHE.cc:106-119 | the least feasible move in the order, or an empty neighbourhood when no move is feasible |
| SwapHoursNeighborhood.NextMove | Sched_SwapHours_NHE.cc:121-131 | the first feasible move after the given one, or none when no later move is feasible |
| SwapHoursNeighborhood.Drawn | Sched_SwapHours_NHE.cc:58-78 | a drawn move has its class, days and hours in range |
| SwapHoursNeighborhood.RandomMove | Sched_SwapHours_NHE.cc:58-78 | returns the first feasible draw among the allowed attempts, or an empty neighbourhood when all of them are infeasible |
| SwapHoursDeltas.ComputeSwapHoursProfUnavailabilityDelta | Sched_CostComponents.cc:176-227 | the computation returns the delta function, which is zero when both hours are on the same day |
| SwapHoursDeltas.SwapHoursProfUnavailabilityDeltaExact | Sched_CostComponents.cc:176-227 | the unavailability cost after the move equals the cost before plus the delta |
| SwapHoursDeltas.FreedDailyExcess | Sched_CostComponents.cc:229-255 | freeing an hour lowers the daily-cap cost by one exactly when that day was over the cap |
| SwapHoursDeltas.AssignedDailyExcess | Sched_CostComponents.cc:229-255 | assigning an hour raises the daily-cap cost by one exactly when that day was already at the cap |
| SwapHoursDeltas.SwapHoursMaxSubjectDeltaExact | Sched_CostComponents.cc:229-255 | for different subjects, the same day or a free hour, the daily-cap cost after the move equals the cost before plus the delta |
| SwapHoursDeltas.SwapHoursMaxSubjectDeltaExactUnderOneProf | Sched_CostComponents.cc:229-255 | with one professor per class and subject, the daily-cap delta is exact for every successful move |
| SwapHoursDeltas.ComputeSwapHoursContiguityDelta | Sched_CostComponents.cc:257-347 | the scan returns the contiguity delta function of the class's week |
| SwapHoursDeltas.ScanRows | Sched_CostComponents.cc:270-345 | the scan of the day rows returns the gaps after the move minus the gaps before, for both professors |
| SwapHoursDeltas.TrackHour | Sched_CostComponents.cc:270-345 | one hour of the scan extends the gap count of a row by the gaps ending there |
| SwapHoursDeltas.WeekContiguityChange | Sched_CostComponents.cc:257-347 | a class week's gaps after exchanging two cells equal the gaps before plus the delta |
| SwapHoursDeltas.SwapHoursContiguityDeltaExact | Sched_CostComponents.cc:257-347 | with one professor per class and subject, the contiguity cost after a successful move equals the cost before plus the delta |
| AssignProfNeighborhood.LessIsStrictWeakOrder | Sched_AssignProf_NHE.cc:43-61 | the move order and equality ignore the professor and index; the order is strict and weak, and equality is its incomparability |
| AssignProfNeighborhood.SubjectCandidatesMembers | Sched_AssignProf_NHE.cc:17-23 | a professor is offered for a subject exactly when the subject has residual hours and the professor may teach it to the class |
| AssignProfNeighborhood.AvailableProfsMembers | Sched_AssignProf_NHE.cc:8-27 | a professor is available to a class exactly when their subject has residual hours there and they may teach it to the class |
| AssignProfNeighborhood.CandidateKeepsOneProf | Sched_AssignProf_NHE.cc:17-20 | assigning an available professor keeps one professor per class and subject |
| AssignProfNeighborhood.CandidateKeepsWithinTargets | Sched_AssignProf_NHE.cc:17-20 | assigning an available professor keeps every weekly count within its target |
| AssignProfNeighborhood.GetAvailableProfs | Sched_AssignProf_NHE.cc:8-27 | the loop returns the available professors of the class, subject by subject |
| AssignProfNeighborhood.FeasibleMoveIsCanAssign | Sched_AssignProf_NHE.cc:114-118 | a move is feasible exactly when AssignHour would accept it |
| AssignProfNeighborhood.MakeMove | Sched_AssignProf_NHE.cc:120-123 | a feasible move assigns the hour and adds one occupied hour, otherwise nothing changes; an available professor keeps one professor per subject and the targets |
| AssignProfNeighborhood.AssignEffect | Sched_AssignProf_NHE.cc:120-123 | an accepted move adds one occupied hour and, for an available professor, keeps the invariants of the search |
| AssignProfNeighborhood.PrecedesIsStrictTotalOrder | Sched_AssignProf_NHE.cc:163-214 | adding the index to the move order gives a strict total order on candidate moves |
| AssignProfNeighborhood.NextClassWithCandidates | Sched_AssignProf_NHE.cc:130-132 | finds the first class from a given one with available professors, or reports that none has any |
| AssignProfNeighborhood.AnyNextMove | Sched_AssignProf_NHE.cc:163-214 | from a candidate, the next move is its immediate successor in the enumeration order, or none when it is the last |
| AssignProfNeighborhood.FirstMove | Sched_AssignProf_NHE.cc:125-149 | the first feasible candidate in enumeration order, or an empty neighbourhood when none is feasible |
| AssignProfNeighborhood.NextMove | Sched_AssignProf_NHE.cc:151-161 | the first feasible candidate after the given one, or none when no later candidate is feasible |
| AssignProfNeighborhood.ClassesWithMovesMembers | Sched_AssignProf_NHE.cc:88-90 | a class is listed exactly when it has available professors |
| AssignProfNeighborhood.CollectClassesWithMoves | Sched_AssignProf_NHE.cc:88-93 | the loop returns the classes with available professors, in order |
| AssignProfNeighborhood.Drawn | Sched_AssignProf_NHE.cc:96-105 | a drawn move is in range, in a class with candidates, with an available professor, and keeps the index it was given |
| AssignProfNeighborhood.DrawUntilFeasible | Sched_AssignProf_NHE.cc:95-111 | returns the first feasible draw within the allowed attempts, or an empty neighbourhood when all are rejected |
| AssignProfNeighborhood.RandomMove | Sched_AssignProf_NHE.cc:80-112 | a feasible move with an available professor, drawn first among the attempts; empty when no class has candidates or every draw is rejected |
| AssignProfDeltas.AssignProfProfUnavailabilityDelta | Sched_CostComponents.cc:354-372 | the delta is 0 or 1, and 0 unless the hour is on the professor's declared day |
| AssignProfDeltas.ComputeAssignProfProfUnavailabilityDelta | Sched_CostComponents.cc:354-372 | the computation returns that delta |
| AssignProfDeltas.DeclaredDayDeltaExact | Sched_CostComponents.cc:354-372 | the corrected delta, 1 only when the professor had no hour that day in any class, is exact |
| AssignProfDeltas.AssignProfProfUnavailabilityDeltaOvercount | Sched_CostComponents.cc:363 | the delta as written exceeds the exact one by one exactly when the professor is busy that day only in other classes |
| AssignProfDeltas.OneDayInstance | Sched_CostComponents.cc:354-372 | a well-formed instance with one professor, two classes and one day of two hours |
| AssignProfDeltas.ProfUnavailabilityDeltaCounterexample | Sched_CostComponents.cc:354-372 | in that instance a permitted move has delta 1 while the unavailability cost does not change |
| AssignProfDeltas.AssignProfMaxSubjectDeltaExact | Sched_CostComponents.cc:374-382 | the daily-cap cost after a permitted move equals the cost before plus the delta |
| AssignProfDeltas.AssignProfProfMaxWeeklyDeltaExact | Sched_CostComponents.cc:384-392 | the weekly-cap cost after a permitted move equals the cost before plus the delta |
| AssignProfDeltas.AssignProfContiguityDelta | Sched_CostComponents.cc:394-423 | the contiguity delta as written is 0 or 1 |
| AssignProfDeltas.ComputeAssignProfContiguityDelta | Sched_CostComponents.cc:394-423 | the computation returns that delta |
| AssignProfDeltas.ScanForGap | Sched_CostComponents.cc:412-421 | the scan returns 1 exactly when the professor's hours that day, with the new one, have a gap |
| AssignProfDeltas.AssignProfContiguityDeltaMeaning | Sched_CostComponents.cc:394-423 | the delta is 1 exactly when the new hour is not next to one of the professor's hours and the professor already teaches the class that day |
| SwapProfNeighborhood.LessIsStrictTotalOrder | Sched_SwapProf_NHE.cc:15-33 | the move order is a strict total order, and move equality is field-wise equality |
| SwapProfNeighborhood.MovePair | Sched_SwapProf_NHE.cc:75-90 | the two professors of the move are those the two classes have for the subject |
| SwapProfNeighborhood.FeasibleMove | Sched_SwapProf_NHE.cc:75-108 | feasible exactly when the classes differ, both have different professors for the subject, and no hour makes either professor double-booked |
| SwapProfNeighborhood.MakeMove | Sched_SwapProf_NHE.cc:110-143 | the professors' hours in the two classes are exchanged; weekly counts and occupied hours are kept; with one professor per subject the class-professor entries are swapped |
| SwapProfNeighborhood.Collect | Sched_SwapProf_NHE.cc:122-136 | the loop frees and records exactly the week's hours of each professor in its class |
| SwapProfNeighborhood.Reassign | Sched_SwapProf_NHE.cc:138-142 | reassigning the recorded hours crosswise produces the swapped schedule |
| SwapProfNeighborhood.StartIsLeast | Sched_SwapProf_NHE.cc:145-159 | no move precedes the starting move |
| SwapProfNeighborhood.AnyNextMove | Sched_SwapProf_NHE.cc:172-200 | the next move is the immediate successor in the move order; no next move exactly when none follows |
| SwapProfNeighborhood.FirstMove | Sched_SwapProf_NHE.cc:145-159 | an empty neighbourhood when there are as many professors as subjects; otherwise the least feasible move, or empty when none is feasible |
| SwapProfNeighborhood.NextMove | Sched_SwapProf_NHE.cc:161-170 | the first feasible move after the given one, or none when no later move is feasible |
| SwapProfNeighborhood.Drawn | Sched_SwapProf_NHE.cc:53-73 | a drawn move has its subject and classes in range |
| SwapProfNeighborhood.RandomMove | Sched_SwapProf_NHE.cc:53-73 | empty when there are as many professors as subjects; otherwise the first feasible draw, or empty when all draws are infeasible |
| SwapProfNeighborhood.OneProfEachNoSwap | Sched_SwapProf_NHE.cc:58-59 | when every subject has a professor and there are as many professors as subjects, no move is swappable, which justifies the early exit |
| SwapProfEffect.SwapKeepsWeeklyHours | Sched_SwapProf_NHE.cc:110-143 | exchanging professors of a subject keeps every class's weekly subject hours |
| SwapProfEffect.SwapKeepsDailyHours | Sched_SwapProf_NHE.cc:110-143 | exchanging professors of a subject keeps every class's daily subject hours |
| SwapProfEffect.SwapKeepsOccupied | Sched_SwapProf_NHE.cc:110-143 | exchanging professors keeps the number of occupied class hours |
| SwapProfEffect.SwapKeepsOneProf | Sched_SwapProf_NHE.cc:110-143 | exchanging the recorded professors swaps the two class-professor entries and keeps one professor per class and subject |
| SwapProfDeltas.ComputeSwapProfProfUnavailabilityDelta | Sched_CostComponents.cc:431-473 | the computation returns the delta function |
| SwapProfDeltas.DayOffTermExact | Sched_CostComponents.cc:431-473 | each professor's contribution changes by their day-off term |
| SwapProfDeltas.OthersKept | Sched_CostComponents.cc:431-473 | professors other than the two swapped keep their contribution |
| SwapProfDeltas.SwapProfProfUnavailabilityDeltaExact | Sched_CostComponents.cc:431-473 | the unavailability cost after a feasible move equals the cost before plus the delta |
| SwapProfDeltas.ShiftDelta | Sched_CostComponents.cc:476-523 | the delta's case analysis equals the change in the two professors' excess over the cap |
| SwapProfDeltas.SwapProfProfMaxWeeklyDeltaExact | Sched_CostComponents.cc:476-523 | with one professor per subject, the weekly-cap cost after the move equals the cost before plus the delta |
| GreedyHours.CompatibleHours | Sched_SolutionManager.cc:9-42 | returns the compatible-hours list of the specification on the current solution |
| GreedyHours.ScanDay | Sched_SolutionManager.cc:24-39 | the scan of one day takes its free hours in order up to the daily cap, and none on the declared day when checking unavailability |
| GreedyHours.CompatibleHoursProperties | Sched_SolutionManager.cc:9-42 | the hours are in range, free for class and professor, distinct, in the order of the shuffled days, at most the cap per day (one hour per day when the cap is 0, because the cap test follows the hour just taken), and off the declared day when checked |
| GreedyHours.CompatibleFull | Sched_SolutionManager.cc:9-42 | with a cap of HoursXDay and no unavailability check, every hour free for both is listed |
| Greedy.InsertSorted | Sched_SolutionManager.cc:128 | inserting a professor keeps the list ordered by load |
| Greedy.SortByLoad | Sched_SolutionManager.cc:125-128 | the sorted list is a permutation of the input, ordered by non-decreasing weekly load |
| Greedy.TryRound | Sched_SolutionManager.cc:139-151 | when placed, the first professor in order with enough compatible hours gets exactly the target hours; otherwise nothing changes and no professor had enough |
| Greedy.Give | Sched_SolutionManager.cc:144-150 | the professor found gets the first target-many compatible hours |
| Greedy.AssignFirst | Sched_SolutionManager.cc:146-147 | the first n hours of the list are assigned to the professor in order |
| Greedy.Relax | Sched_SolutionManager.cc:155-161 | the relaxation either drops the unavailability check or allows one more hour per day |
| Greedy.PlaceSubject | Sched_SolutionManager.cc:130-162 | the subject is placed in round n of the relaxation sequence (Round), and every earlier round had a cap within HoursXDay and found no professor; when placed, the cap used is within HoursXDay and the placement is as in TryRound; otherwise nothing changes, round n is the first whose cap exceeds HoursXDay, and even the loosest round found no professor |
| Greedy.GreedyState | Sched_SolutionManager.cc:95-164 | the result is valid, has one professor per class and subject, and every class has either no hours or exactly the target of each subject; a subject with weekly hours and a daily cap within HoursXDay has no hours in a class only when none of its professors has that many distinct hours free in common with the class in the result |
| Greedy.GaveUpMeansNoRoom | Sched_SolutionManager.cc:136-162 | a subject left unplaced means no professor had target-many hours free for both them and the class |
| Greedy.GaveUpUnplaceable | Sched_SolutionManager.cc:136-162 | a subject given up with its full professor list has no hours, or a daily cap above HoursXDay, or no professor with enough hours free in common with the class |
| Greedy.NoRoomKept | Sched_SolutionManager.cc:146-147 | assigning hours only takes free hours away, so a subject without room in a class stays without room |
| Greedy.FinalProgress | Sched_SolutionManager.cc:121-163 | after the last class, every class and subject holds no hours or the target, and a subject with none cannot be placed |
| Greedy.TurnTaken | Sched_SolutionManager.cc:139-150 | placing a subject's hours with one of its professors keeps one professor per subject and advances the construction's progress |
| Greedy.OneProfKept | Sched_SolutionManager.cc:146-147 | assigning hours to one professor for an untaught subject keeps one professor per subject |

## Left out

- RandomState (Sched_SolutionManager.cc:52-93) is not modelled. It is driven by randomness, and its retry loop need not terminate.
- Random tie-breaks are modelled by parameters:
  - The professor shuffle with its unstable sort by load becomes an arbitrary professor permutation followed by a stable insertion sort by load.
  - GreedyState orders the subjects with std::sort and a comparator that breaks ties between equal weekly hours by a random draw (`Random::Uniform<int>(0,1)`, Sched_SolutionManager.cc:115). That comparator is not a strict weak ordering, which std::sort requires, so the source's order is not guaranteed. The model takes as its parameter any order by non-increasing weekly hours (IsSubjectOrder).
  - Day shuffles become given day orders.
  - Random draws become a function `rand`.
  - Uniformity of the draws is not modelled.
- Reading, writing and printing of instances and solutions are not modelled: operator>>, operator<<, Print, PrintTAB and PrintViolations. Of the input reader, only the day names, the defaults of the two caps and the professor lists per subject are modelled.
- Sched_Output::operator= (Sched_Data.cc:408-423) is not modelled, because Dafny objects have no assignment operator.
- The cost weights and the split into hard and soft costs belong to Sched_Main.cc, which is not part of this model. The costs are raw violation counts.
- The local-search framework (runners, solvers, tester) is not part of this model, and neither is Sched_Headers.hh. Move fields are modelled as naturals.
- Sched_Helpers and the deprecated members of Sched_Output are not modelled.
- Deltas that are registered for search but not defined in the core's cost-component file are not modelled. This includes a solution-complete delta.
- SwapProfNeighborhood.MakeMove: requires a feasible move. The source never applies an infeasible one, and the effect of an infeasible one is not modelled.
- SwapProfNeighborhood.FirstMove: the early exit when there are as many professors as subjects is sound only when every subject has a professor (OneProfEachNoSwap). The model reports the empty neighbourhood exactly as the source does.
- SwapHoursNeighborhood.AnyNextMove: requires at least two hours per day.
  - The source's unsigned arithmetic would wrap below that.
  - The same requirement applies to this neighbourhood's FirstMove and NextMove.
- SwapProfNeighborhood.AnyNextMove: requires at least two classes, for the same reason. The same requirement applies to this neighbourhood's FirstMove and NextMove.
- Output.Schedule.WeeklySubjectResidualHours: requires the weekly count to be within its target. The source's unsigned subtraction would wrap otherwise.
- AssignProfNeighborhood.FirstMove: requires at least one day and one hour per day. Otherwise the source tests the hour at day 0, hour 0 of an empty grid (Sched_AssignProf_NHE.cc:141-146).
- AssignProfNeighborhood.DrawUntilFeasible: requires at least one day and one hour per day. Otherwise the source calls Random::Uniform(0, N-1) with N = 0.
- AssignProfNeighborhood.RandomMove: requires at least one day and one hour per day, for the same reason.
- SwapHoursNeighborhood.RandomMove: requires at least one class, one day and one hour per day. Otherwise the source calls Random::Uniform(0, N-1) with N = 0.
- SwapProfNeighborhood.RandomMove: requires at least one class. Otherwise the source calls Random::Uniform(0, N-1) with N = 0.
- Greedy.PlaceSubject: when the daily cap already exceeds HoursXDay, no round runs, as in the source, and the subject is left unplaced.
- SwapHoursDeltas.SwapHoursMaxSubjectDeltaExact: weaker than exact in general. Exactness is stated under its precondition, or for every move when each class has one professor per subject (SwapHoursMaxSubjectDeltaExactUnderOneProf).
- SwapHoursDeltas.SwapHoursContiguityDeltaExact: stated under one professor per class and subject, the invariant every construction and move keeps.
- AssignProfDeltas.AssignProfContiguityDelta: not the exact change in contiguity cost. The code returns 0 whenever the new hour is next to one of the professor's hours, including when it closes a gap. The model states what it computes (AssignProfContiguityDeltaMeaning).
- Costs.ProfUnavailabilityCostCounts: assumes each declared day is one of the instance's days, a condition the source's input format does not enforce.
- The counters are stored as integers in the class fields. The invariant ties them to the natural-number counts.

## Findings

| source | as written | input that shows it | evidently intended | confidence | as-written member | corrected member |
|---|---|---|---|---|---|---|
| Sched_CostComponents.cc:354-372 | the unavailability delta of a professor assignment is 1 when the hour is on the professor's declared day and the professor has no hour in the moved class's row that day (line 363), ignoring the professor's hours in other classes | one professor who declares day 0, two classes, one day of two hours; the professor already teaches class 0 at (day 0, hour 0); the move gives class 1 the professor at (day 0, hour 1) | 1 only when the professor has no hour that day in any class, because only then does the day off change | not executed | AssignProfDeltas.ProfUnavailabilityDeltaCounterexample | AssignProfDeltas.DeclaredDayDeltaExact |
