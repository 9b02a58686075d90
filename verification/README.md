# Career Roadmap: a verified model of the planning core

Career Roadmap turns a user's career goal, weekly study time and study days into a plan. A FastAPI
backend extracts and weighs the skills the goal needs, picks courses for every skill, groups the
skills into modules and lays the courses out as dated study sessions. A React dashboard sets up the
goal, edits the skill scores, tracks the setup steps and shows the schedule in a week grid, a month
calendar and module progress panels.

This project models that core in Dafny as pure functions over immutable data:

- **Scheduling.** `distribute_weekly_hours`, the session merge of `generate_learning_blocks`,
  `schedule_module` and `schedule_all_modules` (`hours_distribution.dfy`, `learning_blocks.dfy`,
  `schedule_module.dfy`, `schedule_days.dfy`).
- **Courses and modules.** Course selection (`course_selection.dfy`) and module grouping
  (`module_grouping.dfy`).
- **Skills.** Skill importance, the job-title classifier, the resume extractors and skill
  generation (`skill_importance.dfy`, `job_domain.dfy`, `resume_skills.dfy`, `generate_skills.dfy`).
- **Endpoints.** The task, skill, goal and user endpoints with their caches (`task_store.dfy`,
  `skill_store.dfy`, `goal_store.dfy`, `user_store.dfy`, `read_through.dfy`, `user_table.dfy`) and
  the salary map (`salary_map.dfy`).
- **Dashboard components.** `dashboard_setup.dfy`, `goal_editor.dfy`, `skill_editor.dfy`,
  `step_tracker.dfy`, `mini_step_tracker.dfy`, `schedule_grid.dfy`, `calendar_panel.dfy`,
  `module_progress.dfy` and `study_days.dfy`.
- **Semantics shared by all of them.** Python and JavaScript text and number semantics
  (`text.dfy`, `numeric.dfy`, `number_text.dfy`), dictionaries, stable sorting, grouping and
  the calendar (`dict.dfy`, `sorting.dfy`, `partition.dfy`, `calendar.dfy`), and the
  `Option`/`Result` wrappers (`wrappers.dfy`).

Conventions:

- Dates are day numbers: day 0 is 1970-01-01, a Thursday.
- Clock times are minutes after midnight.
- Hours are exact reals, and weekly allocations are counts of half hours.
- A failing request is a `Result` error carrying the HTTP status the endpoint answers with.

## Model

| member | source | states |
|---|---|---|
| Text.LowerChar | backend/utils/skill_extractor_helper/job_domain_classifier.py:127 | the lowered character is never an upper-case letter; an upper-case letter moves down by 32 and everything else is unchanged |
| Text.Lower | backend/utils/schedule_generator_helper/module_generator.py:15 | `lower()` keeps the length and lowers every character in place |
| Text.LowerIdempotent | backend/utils/skill_extractor_helper/resume_skill_extractor.py:97-100 | lowering twice is lowering once, so a name lowered before it is stored matches its own lowered form |
| Text.TrimStart | frontend/components/dashboard/step-navigation.tsx:47 | the result is a suffix of the input, does not start with whitespace, and only whitespace was dropped |
| Text.TrimEnd | frontend/components/dashboard/step-navigation.tsx:47 | the result is a prefix of the input, does not end with whitespace, and only whitespace was dropped |
| Text.Strip | backend/utils/skill_extractor_helper/calculate_skill_importance.py:44 | `strip()` returns a slice of the input that neither starts nor ends with whitespace |
| Text.RemoveAll | backend/utils/skill_extractor_helper/calculate_skill_importance.py:49 | `replace(p, "")` never lengthens the text and leaves it alone when the pattern does not occur; `Text.RemoveAllIsJoinedSplit` relates it to `split` |
| Text.SplitOnJoin | backend/utils/skill_extractor_helper/calculate_skill_importance.py:49 | joining the pieces of `split(p)` with `p` gives back the text |
| Text.RemoveAllIsJoinedSplit | backend/utils/skill_extractor_helper/calculate_skill_importance.py:49 | `replace(p, "")` equals `"".join(s.split(p))` for every text and non-empty pattern |
| Text.RemoveAllOnce | backend/utils/skill_extractor_helper/calculate_skill_importance.py:49 | a single occurrence that nothing before it could start is removed and the rest kept |
| Text.ContainsAfter | backend/utils/skill_extractor_helper/calculate_skill_importance.py:47 | the `in` test is decided after a prefix that lacks the pattern's first character |
| Text.NotInsideSibling | backend/utils/skill_extractor_helper/calculate_skill_importance.py:54-56 | two patterns that share their first character but not their second, where `t` never repeats that character, do not occur one inside the other |
| Text.StripStripped | backend/utils/skill_extractor_helper/calculate_skill_importance.py:44 | `strip()` leaves text that neither starts nor ends with whitespace unchanged |
| Text.StripTrailingBlank | backend/utils/skill_extractor_helper/calculate_skill_importance.py:49-57 | `strip()` removes the blank left behind when a trailing tag is removed |
| Text.Split | backend/utils/skill_extractor_helper/calculate_skill_importance.py:39 | `split(sep)` yields at least one piece and no piece contains the separator |
| Text.SplitJoin | backend/utils/skill_extractor_helper/calculate_skill_importance.py:39 | re-joining the pieces with the separator gives back the text: splitting loses nothing |
| Text.SplitWhitespace | backend/utils/skill_extractor_helper/job_domain_classifier.py:128 | `split()` yields only non-empty runs free of whitespace |
| Text.Word | backend/utils/skill_extractor_helper/job_domain_classifier.py:128 | the leading run of non-whitespace: a prefix, maximal, and non-empty when the text starts with a non-space |
| Numeric.Trunc | backend/utils/schedule_generator_helper/course_selection.py:100 | `int(x)` rounds toward zero: within one below a non-negative value and one above a negative value |
| Numeric.RoundHalfEven | backend/routers/generate_skills.py:24 | `round(x)` is within one half of `x` |
| Numeric.PyRound | backend/utils/schedule_generator_helper/module_generator.py:121 | `round(x, p)` is within half a unit of the `p`-th decimal of `x` |
| Numeric.ScaleBack | backend/routers/generate_skills.py:24 | a value rounded at scale `k` and divided back by `k` lies within `0.5 / k` of the original |
| Numeric.JsRound | frontend/components/dashboard/module-progress.tsx:50 | `Math.round(x)` is the integer in the half-open interval `(x - 0.5, x + 0.5]`: ties go up |
| Numeric.ToFixed | frontend/components/stepTracker/step-schedule.tsx:128 | the value of `toFixed(p)` is within half a unit of the `p`-th decimal |
| Numeric.Digits | frontend/components/dashboard/learning-duration.tsx:5 | the longest digit prefix: all digits, and the next character is not one |
| Numeric.NatString | frontend/components/dashboard/weekly-hours.tsx:34 | `String(n)` is a non-empty run of digits without a leading zero |
| Numeric.NatStringValue | frontend/components/dashboard/weekly-hours.tsx:34 | reading the digits of `String(n)` back gives `n` |
| Numeric.ParseInt | frontend/components/dashboard/learning-duration.tsx:5 | `parseInt` without a radix is `NaN` exactly when no digit follows the leading whitespace, the sign and any `0x` prefix: hexadecimal digits after the prefix, decimal ones otherwise |
| Numeric.ParseIntHex | frontend/components/dashboard/learning-duration.tsx:5 | `parseInt` reads `0x` followed by hexadecimal digits as their hexadecimal value |
| Numeric.ParseIntBareHex | frontend/components/dashboard/learning-duration.tsx:5 | `0x` with no hexadecimal digit after it is `NaN`, not 0 |
| Numeric.ToNumber | frontend/components/goal/goal-details.tsx:200 | `Number(s)` of blank text is 0 |
| Numeric.ParseIntDigits | frontend/components/dashboard/weekly-hours.tsx:34 | `parseInt` of a plain digit run is its decimal value |
| Numeric.ToNumberDigits | frontend/components/goal/goal-details.tsx:210 | `Number` of a plain digit run is its decimal value |
| Numeric.ParseNatString | frontend/components/dashboard/weekly-hours.tsx:34 | `parseInt(String(n))` and `Number(String(n))` both give back `n` |
| PyDict.Get | backend/utils/schedule_generator_helper/module_generator.py:121 | `d.get(k)` finds a value exactly when some entry has key `k`, and it is that entry's value |
| PyDict.Put | backend/utils/schedule_generator_helper/course_selection.py:105 | `d[k] = v` keeps the key order when `k` is present and appends `(k, v)` when it is new |
| PyDict.GetPut | backend/utils/schedule_generator_helper/course_selection.py:109 | after `d[k] = v`, `k` reads `v` and every other key reads what it read before |
| PyDict.FromPairs | backend/utils/schedule_generator_helper/module_generator.py:117 | a dict comprehension has exactly the keys of its pairs |
| PyDict.FromPairsLastWins | backend/utils/schedule_generator_helper/module_generator.py:117 | in a dict comprehension, the last pair written for a key is the one kept |
| StableSort.SortDesc | backend/utils/schedule_generator_helper/task_generator.py:201 | `sort(key=lambda x: -k(x))` is a permutation of its input into descending key order |
| StableSort.SortDescStable | backend/utils/schedule_generator_helper/task_generator.py:201 | the sort is stable: elements with equal keys keep their relative order |
| StableSort.SortDescSorted | backend/utils/skill_extractor_helper/resume_skill_extractor.py:74-76 | sorting a list already in descending order leaves it unchanged |
| Partition.Distinct | frontend/components/dashboard/module-progress.tsx:36-39 | `Array.from(new Set(xs.map(f)))` has no duplicates |
| Partition.DistinctKeys | frontend/components/dashboard/module-progress.tsx:36-39 | a key is listed exactly when some element carries it |
| Partition.DistinctPrefix | frontend/components/dashboard/module-progress.tsx:36-39 | the keys listed for a prefix come first and in the same order: first-appearance order |
| Partition.Filter | frontend/components/dashboard/module-progress.tsx:47 | every element kept by `filter(x => f(x) === k)` carries `k` |
| Partition.FilterMembers | frontend/components/dashboard/module-progress.tsx:47 | an element is kept exactly when it is in the list and carries the key |
| Partition.FilterAbsent | frontend/components/dashboard/module-progress.tsx:47 | a key no element carries has an empty group |
| Partition.FilterAll | frontend/components/dashboard/module-progress.tsx:47 | a list whose every element carries `k` is kept whole |
| Partition.GroupsPartition | frontend/components/dashboard/module-progress.tsx:36-50 | the groups of the distinct keys add up to the whole list: nothing is lost or counted twice |
| Partition.GroupsNonEmpty | frontend/components/dashboard/module-progress.tsx:36-50 | every listed key has a non-empty group, and every element is in the group of its key |
| Calendar.WeekdayFromIndex | backend/utils/schedule_generator_helper/task_generator.py:208 | the weekday named by an index 0..6 has that index (Monday first) |
| Calendar.WeekdayOf | backend/utils/schedule_generator_helper/task_generator.py:208 | `strftime("%A")` of a day number cycles with period seven, anchored so that 1970-01-01 is a Thursday |
| Calendar.JsDay | frontend/components/schedule/scheduleGrid.tsx:37 | `getDay()` is the Python weekday shifted to Sunday-first order |
| Calendar.WeekdaysDistinct | backend/utils/schedule_generator_helper/task_generator.py:207-210 | seven consecutive days have seven different weekdays, so one week of the loop visits each weekday once |
| Calendar.WeekdayOffset | backend/utils/schedule_generator_helper/task_generator.py:207-208 | every weekday comes up within the seven days from any start |
| Calendar.DaysInMonth | frontend/components/schedule/calendarPanel.tsx:49 | a month has 28 to 31 days |
| Calendar.MonthLength | frontend/components/schedule/calendarPanel.tsx:48-49 | every month index names a month of 28 to 31 days |
| Calendar.FirstOfNextMonth | frontend/components/schedule/calendarPanel.tsx:27 | consecutive months are laid end to end, with no gap or overlap |
| Calendar.DayWithinMonth | frontend/components/schedule/calendarPanel.tsx:63 | a valid civil date lies inside the month it names |
| Calendar.EpochIsThursday | backend/utils/schedule_generator_helper/task_generator.py:208 | 1970-01-01 is day 0 and a Thursday |
| ScheduleGrid.ColumnIndex | frontend/components/schedule/scheduleGrid.tsx:36-39 | today's column is `getDay()` moved to Monday-first order |
| ScheduleGrid.ColumnIsWeekday | frontend/components/schedule/scheduleGrid.tsx:36-39 | today's column is the index of today's weekday under the Monday-first headers |
| ScheduleGrid.ColumnBijective | frontend/components/schedule/scheduleGrid.tsx:38 | the column mapping is one-to-one and onto the seven columns |
| ScheduleGrid.WeekStart | frontend/components/schedule/scheduleGrid.tsx:48-51 | the week of a date starts on the Monday at most six days before it |
| ScheduleGrid.SameWeekIff | frontend/components/schedule/scheduleGrid.tsx:41-59 | today falls between Monday and Sunday of the selected week exactly when both dates have the same week start |
| ScheduleGrid.TimeOffset | frontend/components/schedule/scheduleGrid.tsx:20-25 | the line's offset exists exactly for hours 8 through 21 inclusive, and is one pixel per minute after 08:00 plus 48 |
| ScheduleGrid.OffsetIncreasing | frontend/components/schedule/scheduleGrid.tsx:21-22 | a later time of day is drawn strictly lower |
| ScheduleGrid.Line | frontend/components/schedule/scheduleGrid.tsx:73-79 | the red line is drawn exactly when the hour is in range and today is in the displayed week, and it sits in today's column at the time offset |
| ScheduleGrid.HourLabels | frontend/components/schedule/scheduleGrid.tsx:65-66 | fourteen labels in increasing order, from 8:00 to 21:00, and an hour is labelled exactly when the now line can be drawn at it |
| ScheduleGrid.Cells | frontend/components/schedule/scheduleGrid.tsx:90-99 | seven columns of thirteen cells in which each (day, hour) pair occurs once and only in its own column, and every column the now line picks is one of them |
| CalendarPanel.StartOfWeek | frontend/components/schedule/calendarPanel.tsx:50 | `startOfWeek` is the Sunday at most six days before |
| CalendarPanel.EndOfWeek | frontend/components/schedule/calendarPanel.tsx:51 | `endOfWeek` is the Saturday at most six days after |
| CalendarPanel.PrevMonth | frontend/components/schedule/calendarPanel.tsx:16 | the back arrow moves to the previous month, wrapping January to December of the year before |
| CalendarPanel.NextMonth | frontend/components/schedule/calendarPanel.tsx:27 | the forward arrow moves to the next month, wrapping December to January of the year after |
| CalendarPanel.PrevNext | frontend/components/schedule/calendarPanel.tsx:14-31 | the two arrows undo each other |
| CalendarPanel.Week | frontend/components/schedule/calendarPanel.tsx:59-80 | a row holds seven consecutive days on seven different weekdays, and a row that starts on a Sunday puts each day under its own header |
| CalendarPanel.WholeWeeks | frontend/components/schedule/calendarPanel.tsx:48-51 | the grid from the Sunday before the month to the Saturday after it spans whole weeks, at most six |
| CalendarPanel.WeekRows | frontend/components/schedule/calendarPanel.tsx:56-87 | the row loop produces one row of seven consecutive days per week of the span |
| CalendarPanel.RenderCells | frontend/components/schedule/calendarPanel.tsx:47-90 | one to six rows of seven days, starting on the Sunday before the month's first day and ending on the Saturday after its last |
| CalendarPanel.MonthCovered | frontend/components/schedule/calendarPanel.tsx:56-87 | every day of the displayed month appears in the grid exactly once |
| CalendarPanel.CellStyle | frontend/components/schedule/calendarPanel.tsx:68-71 | a cell is highlighted exactly when it is the selected day, ringed exactly when it is today and not selected, and bright exactly when it is in the displayed month |
| CalendarPanel.Click | frontend/components/schedule/calendarPanel.tsx:73 | clicking a day keeps the displayed month |
| CalendarPanel.ClickSelects | frontend/components/schedule/calendarPanel.tsx:62-73 | after clicking a day it is highlighted without a ring, and no other day is highlighted |
| HoursDistribution.ActiveDays | backend/utils/schedule_generator_helper/task_generator.py:9 | the active days are exactly the days marked true, each listed once |
| HoursDistribution.Halves | backend/utils/schedule_generator_helper/task_generator.py:15-18 | the number of half hours the loop hands out: none below half an hour, otherwise the largest count whose half hours fit in the time |
| HoursDistribution.HalvesAtExit | backend/utils/schedule_generator_helper/task_generator.py:15-19 | once the remaining time drops below half an hour, the loop has run exactly `Halves` times |
| HoursDistribution.FillShare | backend/utils/schedule_generator_helper/task_generator.py:14-19 | round robin gives each of `m` keys `t / m` half hours, and one more to each of the first `t % m` keys |
| HoursDistribution.FillTotal | backend/utils/schedule_generator_helper/task_generator.py:14-19 | round robin hands out exactly `t` half hours in total |
| HoursDistribution.Step1Balanced | backend/utils/schedule_generator_helper/task_generator.py:12-19 | after step 1 every active day holds `n / m` or `n / m + 1` half hours |
| HoursDistribution.Step1Total | backend/utils/schedule_generator_helper/task_generator.py:12-19 | step 1 hands out all `n` half hours |
| HoursDistribution.RoundRobinStep | backend/utils/schedule_generator_helper/task_generator.py:12-19 | the loop of step 1 fails exactly when there is time to hand out and no active day, and otherwise ends with the round-robin allocation |
| HoursDistribution.Step2 | backend/utils/schedule_generator_helper/task_generator.py:21-26 | step 2 changes no day's membership |
| HoursDistribution.Step2Effect | backend/utils/schedule_generator_helper/task_generator.py:21-26 | step 2 leaves weekdays alone, takes an hour off each weekend day holding more than 1.5 h and nothing off the others, and frees what it took |
| HoursDistribution.Step2Total | backend/utils/schedule_generator_helper/task_generator.py:21-26 | step 2 only sets time aside: the allocation plus the freed time is what it was |
| HoursDistribution.Weekdays | backend/utils/schedule_generator_helper/task_generator.py:29 | the weekdays are the active days that are not Saturday or Sunday |
| HoursDistribution.Transfer | backend/utils/schedule_generator_helper/task_generator.py:32-42 | step 3 changes no day's membership and never increases the freed time |
| HoursDistribution.TransferBounds | backend/utils/schedule_generator_helper/task_generator.py:32-42 | step 3 raises only weekdays, and never above 10 h unless a day was already above |
| HoursDistribution.TransferAllFull | backend/utils/schedule_generator_helper/task_generator.py:32-42 | step 3 moves nothing when every weekday is at 10 h: the failures stop it |
| HoursDistribution.TransferTotal | backend/utils/schedule_generator_helper/task_generator.py:32-42 | step 3 moves time from the freed pile onto weekdays without creating or losing any |
| HoursDistribution.WeekendDays | backend/utils/schedule_generator_helper/task_generator.py:45 | the active weekend days, at most two and each once |
| HoursDistribution.Step4 | backend/utils/schedule_generator_helper/task_generator.py:44-52 | step 4 changes no day's membership |
| HoursDistribution.Step4WithinCap | backend/utils/schedule_generator_helper/task_generator.py:44-52 | returning at most two half hours per weekend day keeps every day within 10 h when each has room for two |
| HoursDistribution.Step4Full | backend/utils/schedule_generator_helper/task_generator.py:44-52 | returning two half hours per weekend day brings each weekend day back to at least 10 h |
| HoursDistribution.RebalanceTotal | backend/utils/schedule_generator_helper/task_generator.py:21-52 | steps 2 to 4 only move half hours between days: the week's total is unchanged |
| HoursDistribution.RebalanceWithinCap | backend/utils/schedule_generator_helper/task_generator.py:21-52 | when step 1 leaves every day within 10 h, so do steps 2 to 4 |
| HoursDistribution.RebalanceFull | backend/utils/schedule_generator_helper/task_generator.py:21-52 | when step 1 gives every day at least 10 h, steps 2 to 4 leave every day at least there |
| HoursDistribution.BeforeCap | backend/utils/schedule_generator_helper/task_generator.py:8-52 | the allocation before the cap has exactly the active days |
| HoursDistribution.BeforeCapTotal | backend/utils/schedule_generator_helper/task_generator.py:8-52 | steps 1 to 4 hand out exactly the week's half hours |
| HoursDistribution.CapAll | backend/utils/schedule_generator_helper/task_generator.py:54-59 | step 5 cuts every day to `min(hours, 10)` |
| HoursDistribution.CapDichotomy | backend/utils/schedule_generator_helper/task_generator.py:54-59 | before the cap, either no day is above 10 h or no day is below it |
| HoursDistribution.CappedTotal | backend/utils/schedule_generator_helper/task_generator.py:54-59 | after the cap the week holds `min(n, 20 m)` half hours for `m` active days |
| HoursDistribution.NothingUnderCapAfterOverflow | backend/utils/schedule_generator_helper/task_generator.py:61-70 | whenever step 5 cuts anything off, every day sits at 10 h, so the refill loop has no under-cap day to give to |
| HoursDistribution.Distribute | backend/utils/schedule_generator_helper/task_generator.py:8-72 | `distribute_weekly_hours` fails exactly when there is time and no learning day; otherwise it allocates to exactly the learning days, at most 10 h each, `min(n, 20 m)` half hours in total |
| HoursDistribution.SplitHoursRoundRobin | backend/utils/schedule_generator_helper/task_generator.py:76-83 | `split_hours_round_robin` fails exactly when there is time and no block; otherwise each block gets its round-robin share |
| LearningBlocks.Merge | backend/utils/schedule_generator_helper/task_generator.py:158-177 | the merged sessions are ordered, separate, within 08:00-21:00, and start no earlier than the run in progress |
| LearningBlocks.Sessions | backend/utils/schedule_generator_helper/task_generator.py:153-179 | a day's sessions are ordered and lie within 08:00-21:00 |
| LearningBlocks.MergeCoversLearning | backend/utils/schedule_generator_helper/task_generator.py:158-177 | every learning block from the current one on, and every block of the open run, is covered |
| LearningBlocks.MergeCoversOnlyLearning | backend/utils/schedule_generator_helper/task_generator.py:158-177 | only learning blocks and blocks of the open run are covered |
| LearningBlocks.SessionsCoverLearningBlocks | backend/utils/schedule_generator_helper/task_generator.py:127-179 | when the solver keeps the breaks free, a block is covered by a session exactly when the solver made it a learning block |
| LearningBlocks.MergeMinutes | backend/utils/schedule_generator_helper/task_generator.py:158-177 | the merged sessions last fifteen minutes per learning block |
| LearningBlocks.SessionsMinutes | backend/utils/schedule_generator_helper/task_generator.py:96-179 | a day's sessions last exactly as long as its learning blocks |
| LearningBlocks.MergeSkipsBreaks | backend/utils/schedule_generator_helper/task_generator.py:166-171 | whatever the plan, no session runs on into the lunch or dinner break |
| ModuleScheduling.EntriesFor | backend/utils/schedule_generator_helper/task_generator.py:195-199 | one pool entry per suggested course, tagged with its skill, with all of its hours left |
| ModuleScheduling.PoolOfMembers | backend/utils/schedule_generator_helper/task_generator.py:193-199 | the pool holds exactly the suggested courses of the module's skills, each with its full duration left |
| ModuleScheduling.CoursePool | backend/utils/schedule_generator_helper/task_generator.py:193-201 | the sorted pool is a permutation of the unsorted one, longest first, with ties in pool order |
| ModuleScheduling.FirstEligible | backend/utils/schedule_generator_helper/task_generator.py:232-236 | the first course with half an hour left that was not studied today (unless it is the only one), or none when there is no such course |
| ModuleScheduling.AllocationFits | backend/utils/schedule_generator_helper/task_generator.py:238-239 | `min(remaining, block_duration)` fills at least a minute and at most the session |
| ModuleScheduling.PlacedTask | backend/utils/schedule_generator_helper/task_generator.py:238-250 | a task starts with its session, lasts a positive time and ends inside it |
| ModuleScheduling.FillSessions | backend/utils/schedule_generator_helper/task_generator.py:227-257 | a day keeps its pool of courses and places at most one task per session |
| ModuleScheduling.Consume | backend/utils/schedule_generator_helper/task_generator.py:252 | using a course keeps the pool's size |
| ModuleScheduling.Placed | backend/utils/schedule_generator_helper/task_generator.py:232-254 | an eligible course takes the first session, is marked used today, and the other sessions follow |
| ModuleScheduling.FillSessionsInSessions | backend/utils/schedule_generator_helper/task_generator.py:227-254 | every task of a day starts one of the day's sessions, ends inside it, and is dated that day |
| ModuleScheduling.FillSessionsChronological | backend/utils/schedule_generator_helper/task_generator.py:227-254 | a day's tasks come in time order |
| ModuleScheduling.FillSessionsDistinctTitles | backend/utils/schedule_generator_helper/task_generator.py:223-254 | unless only one course is left, no title is studied twice on one day |
| ModuleScheduling.PoolLossBounded | backend/utils/schedule_generator_helper/task_generator.py:233-252 | a shrinking pool loses at most the hours it could still give |
| ModuleScheduling.PlaceOne | backend/utils/schedule_generator_helper/task_generator.py:238-252 | placing one task takes its minutes, and no fewer hours, off the chosen course, and fits the session |
| ModuleScheduling.FillSessionsPool | backend/utils/schedule_generator_helper/task_generator.py:227-254 | a day keeps its courses and only lowers their hours, and its minutes are at most the hours taken off the pool and at most the sessions' length |
| ModuleScheduling.StudyOn | backend/utils/schedule_generator_helper/task_generator.py:213-257 | a study day moves the date on one day and takes its hours off the module |
| ModuleScheduling.DayStep | backend/utils/schedule_generator_helper/task_generator.py:207-257 | every turn moves the date on one day; a study day takes at least half an hour off; any other day changes nothing else |
| ModuleScheduling.WeekPass | backend/utils/schedule_generator_helper/task_generator.py:207-260 | a week never adds hours back to the module |
| ModuleScheduling.WeekPassDate | backend/utils/schedule_generator_helper/task_generator.py:207-260 | a week moves the date on by at most seven days |
| ModuleScheduling.WeekPassProgress | backend/utils/schedule_generator_helper/task_generator.py:207-260 | a study day within the week takes at least half an hour off the module, or the module is finished |
| ModuleScheduling.WeekPassIdle | backend/utils/schedule_generator_helper/task_generator.py:207-216 | a week with no time on any day changes nothing but the date |
| ModuleScheduling.WeekProgress | backend/utils/schedule_generator_helper/task_generator.py:203-260 | a week with at least half an hour to hand out and a learning day finishes the module or takes half an hour off it |
| ModuleScheduling.DistributeShape | backend/utils/schedule_generator_helper/task_generator.py:205 | the week's distribution hands out nothing below half an hour and otherwise gives time to some learning day |
| ModuleScheduling.WeeksOutcome | backend/utils/schedule_generator_helper/task_generator.py:203-260 | the corrected loop fails exactly when its first week has time to hand out and no learning day, and otherwise ends with less than half an hour to hand out |
| ModuleScheduling.DayFillFacts | backend/utils/schedule_generator_helper/task_generator.py:218-257 | a learning day's tasks are in order, belong to the module, lie on that day and come out of the pool |
| ModuleScheduling.WeeksKeeps | backend/utils/schedule_generator_helper/task_generator.py:203-260 | the loops keep their invariant: tasks in order, the module's, before the current date, and paid for by the pool |
| ModuleScheduling.WeeksAsWritten | backend/utils/schedule_generator_helper/task_generator.py:203-260 | the loop as written, run for at most `fuel` weeks, only ever finishes with no hours of the module left, since it stops on `hours_remaining > 0` alone |
| ModuleScheduling.AsWrittenNeverEnds | backend/utils/schedule_generator_helper/task_generator.py:203-216 | with more than nothing but less than half an hour of the module or of the weekly budget left, the loop as written runs out of any number of weeks |
| ModuleScheduling.AsWrittenAgrees | backend/utils/schedule_generator_helper/task_generator.py:203-260 | whenever the loop as written ends, the corrected loop ends the same way |
| ModuleScheduling.ModuleSetup | backend/utils/schedule_generator_helper/task_generator.py:183-190 | `schedule_module` plans with `distribute_weekly_hours` on the user's days, for the module and the user |
| ModuleScheduling.ScheduleModule | backend/utils/schedule_generator_helper/task_generator.py:183-262 | `schedule_module` fails exactly when the first week has time and no learning day; otherwise its tasks are in order, the user's and the module's, on learning days from the start date within 08:00-21:00, and total no more minutes than the pool has hours |
| ModuleScheduling.ScheduleModuleAgrees | backend/utils/schedule_generator_helper/task_generator.py:183-262 | whenever `schedule_module` as written returns, it returns what the corrected one does |
| ModuleScheduling.ScheduleModuleHangs | backend/utils/schedule_generator_helper/task_generator.py:203-216 | a module with some but under half an hour in all, or a weekly budget under half an hour: as written it never returns, while the corrected one returns no tasks |
| ModuleScheduling.SmallModuleHangs | backend/utils/schedule_generator_helper/module_generator.py:121 | a one-skill module of 0.2 h, which `assign_module_durations` produces for a small focus share, never finishes as written |
| ModuleScheduling.FailsSplit | backend/utils/schedule_generator_helper/task_generator.py:269-278 | the modules fail exactly when the first fails or a later one does |
| ModuleScheduling.ChronologicalDates | backend/utils/schedule_generator_helper/task_generator.py:281-284 | tasks in time order never go back in date, so the last task has the latest date |
| ModuleScheduling.NextStart | backend/utils/schedule_generator_helper/task_generator.py:281-284 | the next module starts after every task of this one, or where this one started when it got none |
| ModuleScheduling.AllAfter | backend/utils/schedule_generator_helper/task_generator.py:278-284 | one module's tasks followed by the later modules' tasks from the day after its last one stay in order and each belongs to a module |
| ModuleScheduling.ScheduleAll | backend/utils/schedule_generator_helper/task_generator.py:265-286 | `schedule_all_modules` fails exactly when some module fails; otherwise its tasks are in time order and each is a task of one of the modules |
| ScheduleDays.OneOpen | backend/utils/schedule_generator_helper/task_generator.py:224-225 | when `single_course_remaining` has one element, it names the one course with half an hour left |
| ScheduleDays.FillSessionsSingle | backend/utils/schedule_generator_helper/task_generator.py:224-254 | with one course left, every session of the day goes to that course |
| ScheduleDays.DayTitles | backend/utils/schedule_generator_helper/task_generator.py:223-254 | a day's titles: all different when not exactly one course is left, and all of that course when exactly one is |
| ScheduleDays.DailyTitlesAppend | backend/utils/schedule_generator_helper/task_generator.py:223-257 | a new day's tasks keep the per-day title rule of the days before it |
| ScheduleDays.ChronologicalOrdered | backend/utils/schedule_generator_helper/task_generator.py:227-257 | in tasks in time order, every task is over before any later one starts |
| ScheduleDays.FillSessionsTitle | backend/utils/schedule_generator_helper/task_generator.py:227-254 | a day gives each course no more minutes than the hours taken off that course |
| ScheduleDays.DayFillDays | backend/utils/schedule_generator_helper/task_generator.py:218-257 | a day's tasks are on that day, inside the solver's sessions for its hours, titled as the day allows, and paid for by their course |
| ScheduleDays.WeeksDays | backend/utils/schedule_generator_helper/task_generator.py:203-260 | the loops keep the per-day title rule, the solver's sessions and each course's minutes within its hours |
| ScheduleDays.ScheduleModuleTitles | backend/utils/schedule_generator_helper/task_generator.py:223-254 | `schedule_module` studies a course twice on one day only when every task of that day is of that course |
| ScheduleDays.ScheduleModuleBlocks | backend/utils/schedule_generator_helper/task_generator.py:218-254 | every task starts one of the solver's sessions for its day and ends inside it (at most one course per block, no longer than the block), and no two tasks overlap |
| ScheduleDays.ScheduleModuleCourseHours | backend/utils/schedule_generator_helper/task_generator.py:232-252 | no course gets more minutes than its pool entries have hours |
| ScheduleDays.ScheduleAllApart | backend/utils/schedule_generator_helper/task_generator.py:265-286 | tasks of different modules never share a day and come in module order, because each module starts the day after the previous one's last task |
| CourseSelection.StandardizeFocus | backend/utils/schedule_generator_helper/course_selection.py:10-31 | names and confidences are kept; focus scores are divided by their total when it is positive, and the list is returned unchanged otherwise |
| CourseSelection.ScaleSum | backend/utils/schedule_generator_helper/course_selection.py:22-24 | dividing every focus by the total divides their sum by it |
| CourseSelection.StandardizedSumsToOne | backend/utils/schedule_generator_helper/course_selection.py:12-16 | after standardising, positive focus scores add up to one |
| CourseSelection.StandardizeIdempotent | backend/utils/schedule_generator_helper/course_selection.py:95 | standardising a standardised list changes nothing |
| CourseSelection.GreedyPass | backend/utils/schedule_generator_helper/course_selection.py:66-78 | the loop only appends, and only courses from the ranking |
| CourseSelection.GreedyPassBounds | backend/utils/schedule_generator_helper/course_selection.py:66-75 | the loop never selects past `max_courses` and never lets the running duration exceed 110% of the target |
| CourseSelection.GreedyPassEmpty | backend/utils/schedule_generator_helper/course_selection.py:66-81 | starting empty, the loop picks nothing exactly when no single course fits under 110% of the target |
| CourseSelection.GreedyPassStopsFirst | backend/utils/schedule_generator_helper/course_selection.py:77-78 | the loop stops at the first pick that reaches 90% of the target with `min_courses` picked: no shorter selection it went through met both |
| CourseSelection.GreedyPassOrder | backend/utils/schedule_generator_helper/course_selection.py:61-75 | the selection keeps the descending score order of the ranking |
| CourseSelection.Shortest | backend/utils/schedule_generator_helper/course_selection.py:82 | the fallback is a course of minimal duration |
| CourseSelection.GreedySelect | backend/utils/schedule_generator_helper/course_selection.py:33-85 | `greedy_course_selection` returns nothing exactly when it is given no course, and only picks given courses |
| CourseSelection.GreedySelectBounds | backend/utils/schedule_generator_helper/course_selection.py:47-85 | when no course fits under 110% of the target, the shortest course is the sole pick; otherwise one to five courses within 110% of the target |
| CourseSelection.GreedySelectStops | backend/utils/schedule_generator_helper/course_selection.py:77-78 | every shorter run of the picks stays below 90% of the target: the selection stops as soon as it gets there |
| CourseSelection.CoursesForSkill | backend/utils/schedule_generator_helper/course_selection.py:4-8 | the catalogue rows whose skill equals the name case-insensitively, and no others |
| CourseSelection.LowerNames | backend/utils/schedule_generator_helper/course_selection.py:99 | each skill's key is its lower-cased name |
| CourseSelection.PickFor | backend/utils/schedule_generator_helper/course_selection.py:99-109 | a skill's picks are catalogue rows of that skill, and are empty exactly when the catalogue has no row for it |
| CourseSelection.PickForGreedy | backend/utils/schedule_generator_helper/course_selection.py:100-108 | with catalogue rows for the skill, its picks are the greedy selection over those rows aimed at `int(portion * total_weeks * weekly_hours * focus)` hours |
| CourseSelection.CoursesForSkillKey | backend/utils/schedule_generator_helper/course_selection.py:99-101 | names that lower-case alike select the same catalogue rows in the same order |
| CourseSelection.LastNamed | backend/utils/schedule_generator_helper/course_selection.py:97-109 | the last skill whose lower-cased name is the key, none exactly when no skill has that name |
| CourseSelection.LastNamedSameNames | backend/utils/schedule_generator_helper/course_selection.py:95 | standardising focus scores does not change which skill is last for a key |
| CourseSelection.SuggestFromValue | backend/utils/schedule_generator_helper/course_selection.py:97-109 | the loop leaves at each key the picks of the last skill with that name, and keeps keys no skill names |
| CourseSelection.SuggestFromKeys | backend/utils/schedule_generator_helper/course_selection.py:97-109 | the loop adds exactly one key per skill to what was there |
| CourseSelection.SuggestFromFiled | backend/utils/schedule_generator_helper/course_selection.py:97-109 | every course the loop files under a skill is a catalogue course of that skill |
| CourseSelection.SuggestCourses | backend/utils/schedule_generator_helper/course_selection.py:87-111 | `suggest_courses` has exactly one key per lower-cased skill name, and files under it only catalogue courses of that skill |
| CourseSelection.SuggestCoursesValues | backend/utils/schedule_generator_helper/course_selection.py:87-111 | each key holds the picks of the last skill with that lower-cased name: nothing when the catalogue has no course for it, otherwise the greedy selection aimed at `int(portion * total_weeks * weekly_hours * focus)` with the standardised focus |
| ModuleGrouping.PrerequisiteEdges | backend/utils/schedule_generator_helper/module_generator.py:10-18 | the edges read are at most one per relationship |
| ModuleGrouping.PrerequisiteEdgesFail | backend/utils/schedule_generator_helper/module_generator.py:13-17 | reading fails (`KeyError`) exactly when a prerequisite between input skills has no weight |
| ModuleGrouping.PrerequisiteEdgesExact | backend/utils/schedule_generator_helper/module_generator.py:13-17 | when reading succeeds, the edges are exactly those of the prerequisite relationships whose lowered ends are both input skills |
| ModuleGrouping.WriteBoth | backend/utils/schedule_generator_helper/module_generator.py:29-30 | the weight is written under both orders of the pair and nothing else changes |
| ModuleGrouping.AssociationWeightsShape | backend/utils/schedule_generator_helper/module_generator.py:21-31 | the scores are symmetric, and a pair has one exactly when some association between input skills joins it |
| ModuleGrouping.AssociationLastWins | backend/utils/schedule_generator_helper/module_generator.py:28-30 | the last association joining a pair decides its score, 0 when its weight is missing |
| ModuleGrouping.MaxPrereqModule | backend/utils/schedule_generator_helper/module_generator.py:87-90 | the largest module of a placed prerequisite, or -1 when there is none |
| ModuleGrouping.FirstFit | backend/utils/schedule_generator_helper/module_generator.py:95-104 | the first group from the start index that has room and an average association at the threshold, or none |
| ModuleGrouping.PlaceFirstFit | backend/utils/schedule_generator_helper/module_generator.py:86-111 | a skill joins the first fitting group after its prerequisites' modules, or opens a new group at the end when none fits |
| ModuleGrouping.PlaceTracked | backend/utils/schedule_generator_helper/module_generator.py:106-111 | placing a skill records it in `skill_to_module` under the group it joined, and keeps every group at one to three skills |
| ModuleGrouping.GroupAllGrouped | backend/utils/schedule_generator_helper/module_generator.py:86-113 | for an order without repeats, the loop ends with every skill placed after its placed prerequisites |
| ModuleGrouping.GroupSkillsPartition | backend/utils/schedule_generator_helper/module_generator.py:75-113 | the groups hold exactly the skills of the order, each in one group only, one to three per group |
| ModuleGrouping.GroupSkillsAfterPrerequisites | backend/utils/schedule_generator_helper/module_generator.py:83-111 | a skill's group comes after the group of every prerequisite ordered before it |
| ModuleGrouping.FocusMapLookup | backend/utils/schedule_generator_helper/module_generator.py:117-121 | `skill_focus_map.get(skill, 0)` is the focus of the last input skill of that name, in any case |
| ModuleGrouping.SkillHours | backend/utils/schedule_generator_helper/module_generator.py:121 | one duration per skill of the group, in order |
| ModuleGrouping.AssignModuleDurations | backend/utils/schedule_generator_helper/module_generator.py:116-131 | module `i + 1` holds the skills of group `i`, one duration each |
| ModuleGrouping.ModuleHours | backend/utils/schedule_generator_helper/module_generator.py:121 | every skill's duration is its focus times the total hours, to within a twentieth of an hour |
| ModuleGrouping.DurationOfFocus | backend/utils/schedule_generator_helper/module_generator.py:117-121 | every skill's duration is its focus times the total, rounded to a tenth |
| ModuleGrouping.UnknownSkillHours | backend/utils/schedule_generator_helper/module_generator.py:121 | a skill that no input names gets no hours |
| ModuleGrouping.HoursNear | backend/utils/schedule_generator_helper/module_generator.py:121 | rounding to a tenth moves a value by at most a twentieth and keeps 0 at 0 |
| SkillImportance.LabelValue | backend/utils/skill_extractor_helper/calculate_skill_importance.py:63-67 | a label line that is missing or lacks its tag gives an empty field |
| SkillImportance.ReadSkillFields | backend/utils/skill_extractor_helper/calculate_skill_importance.py:43-74 | an entry is required exactly when its line lacks "(nice-to-have)"; a line without any tag is the name itself; a missing application or type line leaves that field empty |
| SkillImportance.TagsApart | backend/utils/skill_extractor_helper/calculate_skill_importance.py:47-57 | none of the three tags occurs inside another |
| SkillImportance.OwnTag | backend/utils/skill_extractor_helper/calculate_skill_importance.py:47 | a tag after text without `(` is found by the `in` test |
| SkillImportance.OtherTag | backend/utils/skill_extractor_helper/calculate_skill_importance.py:54-56 | a tag after text without `(` hides no other tag from the `in` tests |
| SkillImportance.TagRemoved | backend/utils/skill_extractor_helper/calculate_skill_importance.py:49-57 | removing a bracketed tag from `<name> <tag>` and stripping leaves the name |
| SkillImportance.TaggedLine | backend/utils/skill_extractor_helper/calculate_skill_importance.py:44-57 | `<name> <tag>` is already stripped, holds its own tag and no tag that differs from it after the `(`, and strips back to the name once the tag is removed |
| SkillImportance.TaggedName | backend/utils/skill_extractor_helper/calculate_skill_importance.py:43-57 | a skill line `- <name> <tag>` reads as `<name>`, and is required exactly when the tag is not "(nice-to-have)" |
| SkillImportance.OptionalName | backend/utils/skill_extractor_helper/calculate_skill_importance.py:43-57 | a skill line `- <name> "(nice-to-have)"` reads as `<name>` and is not required |
| SkillImportance.AssociationName | backend/utils/skill_extractor_helper/calculate_skill_importance.py:43-57 | a skill line `- <name> "(association)"` reads as `<name>` and is required |
| SkillImportance.PrerequisiteName | backend/utils/skill_extractor_helper/calculate_skill_importance.py:43-57 | a skill line `- <name> "(prerequisite)"` reads as `<name>` and is required |
| SkillImportance.EntryLines | backend/utils/skill_extractor_helper/calculate_skill_importance.py:41-78 | the loop reads entries only at or after its starting line |
| SkillImportance.EntryLinesScan | backend/utils/skill_extractor_helper/calculate_skill_importance.py:41-78 | the lines the loop reads entries at are skill lines, each swallowing the two lines after it, without overlap, and every other skill line is read |
| SkillImportance.ExtractScan | backend/utils/skill_extractor_helper/calculate_skill_importance.py:36-80 | the parsed skills are the entries read at the lines of that scan, in order |
| SkillImportance.ScanUnique | backend/utils/skill_extractor_helper/calculate_skill_importance.py:41-78 | there is only one such scan: the entries are determined by the text |
| SkillImportance.ExactMatch | backend/utils/skill_extractor_helper/calculate_skill_importance.py:89-95 | the first graph skill whose lowered name is the key, found exactly when one exists |
| SkillImportance.Tally | backend/utils/skill_extractor_helper/calculate_skill_importance.py:177-199 | a skill never has more prerequisites or dependents than connections |
| SkillImportance.Touching | backend/utils/skill_extractor_helper/calculate_skill_importance.py:181-182 | the relationships kept touch the skill by lowered id or name, and come from the graph |
| SkillImportance.TallyCounts | backend/utils/skill_extractor_helper/calculate_skill_importance.py:177-193 | the count is the number of touching relationships and the strength the sum of their confidence, lift, weight or 0.5 |
| SkillImportance.SkillMetrics | backend/utils/skill_extractor_helper/calculate_skill_importance.py:82-206 | an exact match wins over fuzzy matching; no match means no connections and frequency 0 |
| SkillImportance.TypeWeight | backend/utils/skill_extractor_helper/calculate_skill_importance.py:236-244 | the type weight lies between 0.95 and 1.2 |
| SkillImportance.SeniorityWeight | backend/utils/skill_extractor_helper/calculate_skill_importance.py:247-255 | the seniority weight lies between 0.7 and 1.4 |
| SkillImportance.ExpertiseFactor | backend/utils/skill_extractor_helper/calculate_skill_importance.py:258-265 | the expertise factor lies between 0.85 and 1.3 |
| SkillImportance.YearsFromLeftmost | backend/utils/skill_extractor_helper/calculate_skill_importance.py:268-270 | `re.search` reads the number of the leftmost match of `(\d+)\+?\s*years?`, and none exactly when nothing matches |
| SkillImportance.YearsFactor | backend/utils/skill_extractor_helper/calculate_skill_importance.py:271 | the years factor lies between 1 and 1.5, and is 1.5 from five years on |
| SkillImportance.ImportanceScore | backend/utils/skill_extractor_helper/calculate_skill_importance.py:274 | the score never exceeds 100 |
| SkillImportance.MultiplierPositive | backend/utils/skill_extractor_helper/calculate_skill_importance.py:230-272 | every multiplier applied after the additive terms is positive |
| SkillImportance.RoundMonotone | backend/utils/skill_extractor_helper/calculate_skill_importance.py:274 | `round(x, 1)` never decreases as `x` grows |
| SkillImportance.ScoreBounds | backend/utils/skill_extractor_helper/calculate_skill_importance.py:208-275 | with non-negative logarithmic terms the score lies between 0 and 100 |
| SkillImportance.RequiredOutranks | backend/utils/skill_extractor_helper/calculate_skill_importance.py:213 | a required skill scores at least as high as the same skill marked nice-to-have |
| SkillImportance.CappedMonotone | backend/utils/skill_extractor_helper/calculate_skill_importance.py:274 | the capped score never decreases as the base grows |
| JobDomain.Blank | backend/utils/skill_extractor_helper/job_domain_classifier.py:128 | every character that is neither a word character nor whitespace becomes a space, and every other character, and the length, is kept |
| JobDomain.KeepKeywords | backend/utils/skill_extractor_helper/job_domain_classifier.py:129 | what survives the filter is drawn from the tokens, is longer than two characters and is no stopword |
| JobDomain.Keywords | backend/utils/skill_extractor_helper/job_domain_classifier.py:125-131 | every extracted word is a keyword: longer than two characters, no stopword, made of lower-case word characters |
| JobDomain.SplitJoinWords | backend/utils/skill_extractor_helper/job_domain_classifier.py:128 | splitting words joined by single spaces gives the words back |
| JobDomain.NormalFixed | backend/utils/skill_extractor_helper/job_domain_classifier.py:127-128 | lower-casing and blanking leave a text of spaces and keyword characters unchanged |
| JobDomain.KeepAllKeywords | backend/utils/skill_extractor_helper/job_domain_classifier.py:129 | the filter keeps a list of keywords whole |
| JobDomain.KeywordsRoundTrip | backend/utils/skill_extractor_helper/job_domain_classifier.py:125-131 | keywords joined by spaces extract back to exactly those keywords |
| JobDomain.KeywordsIdempotent | backend/utils/skill_extractor_helper/job_domain_classifier.py:125-131 | extracting keywords from already extracted keywords changes nothing |
| JobDomain.KeywordsIgnoreCase | backend/utils/skill_extractor_helper/job_domain_classifier.py:127 | keyword extraction gives the same result on a lower-cased title |
| JobDomain.LastJob | backend/utils/skill_extractor_helper/job_domain_classifier.py:66-71 | the position returned holds the key and no later job does; none is returned only when no job has the key |
| JobDomain.LastMatch | backend/utils/skill_extractor_helper/job_domain_classifier.py:65-71 | the (cluster, job) position returned carries the title and nothing later in iteration order does; none only when no job carries it |
| JobDomain.IndexJobsLookup | backend/utils/skill_extractor_helper/job_domain_classifier.py:66-71 | writing one cluster's jobs into the index leaves the last job with the title under it, or the earlier entry when none has it |
| JobDomain.TitleIndexLastWins | backend/utils/skill_extractor_helper/job_domain_classifier.py:64-71 | the title index holds, for each lower-cased title, the cluster and frequency of the last job carrying it, and nothing for titles no job carries |
| JobDomain.JobCountPermutation | backend/utils/skill_extractor_helper/job_domain_classifier.py:62 | a cluster's frequency total does not depend on the order of its jobs |
| JobDomain.JobCountBound | backend/utils/skill_extractor_helper/job_domain_classifier.py:62 | every job's frequency is at most its cluster's total |
| JobDomain.Totals | backend/utils/skill_extractor_helper/job_domain_classifier.py:60-62 | a total exists exactly for each cluster id, and it is the sum of that cluster's frequencies |
| JobDomain.Count | backend/utils/skill_extractor_helper/job_domain_classifier.py:113 | a word is counted a positive number of times exactly when it occurs |
| JobDomain.Distinct | backend/utils/skill_extractor_helper/job_domain_classifier.py:113 | the counter's keys are duplicate-free and are exactly the words that occur |
| JobDomain.Counted | backend/utils/skill_extractor_helper/job_domain_classifier.py:113 | the counter holds one entry per distinct word, with that word's number of occurrences |
| JobDomain.TopKeywords | backend/utils/skill_extractor_helper/job_domain_classifier.py:114 | at most ten distinct words drawn from the list, most frequent first; a word left out means ten were kept and it is no more frequent than the tenth |
| JobDomain.TopJobRecords | backend/utils/skill_extractor_helper/job_domain_classifier.py:120 | the first min(5, n) jobs by descending frequency, drawn from the jobs; all of them when there are at most five, else no job left out is more frequent than the fifth |
| JobDomain.ClusterProfile | backend/utils/skill_extractor_helper/job_domain_classifier.py:106-121 | at most ten distinct keywords, each drawn from the cluster's title words; min(5, n) top jobs |
| JobDomain.Profiles | backend/utils/skill_extractor_helper/job_domain_classifier.py:102-123 | a profile exists exactly for each cluster id, and it is that cluster's profile |
| JobDomain.ProfileCountIsTotal | backend/utils/skill_extractor_helper/job_domain_classifier.py:60-62 | a profile's job count equals the cluster's total, whatever order the jobs are listed in |
| JobDomain.DomainOfKnown | backend/utils/skill_extractor_helper/job_domain_classifier.py:19-46 | a cluster id maps to "Unknown" exactly when it has no domain (cluster "4" has none), and every known domain has a skill graph |
| JobDomain.SkillGraphOf | backend/utils/skill_extractor_helper/job_domain_classifier.py:234 | the general skill graph is returned exactly for a domain without a listed file |
| JobDomain.ExactMatch | backend/utils/skill_extractor_helper/job_domain_classifier.py:133-146 | an exact match always has confidence 1.0 and match type "exact" |
| JobDomain.ExactMatchFindsLastTitle | backend/utils/skill_extractor_helper/job_domain_classifier.py:133-146 | exact matching finds a title iff some job has it after lower-casing and stripping, and then reports the cluster and frequency of the last such job |
| JobDomain.ClassifyToDomain | backend/utils/skill_extractor_helper/job_domain_classifier.py:199-228 | classification fails (IndexError) iff there is no exact match and no cluster; the domain is looked up from the cluster id; exact answers have confidence 1.0 and fallback answers name the first cluster with confidence 0.01 |
| JobDomain.ClassifyFailsIffNoClusters | backend/utils/skill_extractor_helper/job_domain_classifier.py:215 | classification raises exactly when the classifier holds no clusters |
| JobDomain.ClassifyExactIffFound | backend/utils/skill_extractor_helper/job_domain_classifier.py:201-209 | a classification is exact exactly when the exact lookup finds the title |
| JobDomain.ClassifyExactIffListed | backend/utils/skill_extractor_helper/job_domain_classifier.py:133-146 | a classification is exact exactly when some listed job has the normalised title |
| JobDomain.BestSkillGraph | backend/utils/skill_extractor_helper/job_domain_classifier.py:230-238 | fails exactly when classification fails; otherwise it recommends the skill graph of the classified domain |
| JobDomain.GeneralGraphIffUnknownCluster | backend/utils/skill_extractor_helper/job_domain_classifier.py:230-238 | the general skill graph is recommended exactly when the classified cluster has no domain |
| JobDomain.UnknownHasNoGraph | backend/utils/skill_extractor_helper/job_domain_classifier.py:35-47 | the domain "Unknown" has no skill-graph file of its own |
| ResumeSkills.Best | backend/utils/skill_extractor_helper/resume_analyzer.py:178-188 | every entry of the de-duplication dictionary is an input record stored under its own lower-cased name |
| ResumeSkills.BestIndex | backend/utils/skill_extractor_helper/resume_analyzer.py:182-187 | the designated record has the key and is at least as confident as every record with it, and strictly more than every earlier one; none only when no record has the key |
| ResumeSkills.BestLookup | backend/utils/skill_extractor_helper/resume_analyzer.py:178-188 | after the loop each name holds the most confident record with it, the earliest among equally confident ones |
| ResumeSkills.RemoveDuplicates | backend/utils/skill_extractor_helper/resume_analyzer.py:175-191 | the result is sorted by descending confidence and holds only input records |
| ResumeSkills.DedupUnique | backend/utils/skill_extractor_helper/resume_analyzer.py:175-191 | no two de-duplicated records share a lower-cased name |
| ResumeSkills.DedupKeepsBest | backend/utils/skill_extractor_helper/resume_analyzer.py:182-187 | every kept record is the one designated for its name |
| ResumeSkills.DedupMaximal | backend/utils/skill_extractor_helper/resume_analyzer.py:186 | a kept record is at least as confident as any input record with the same name |
| ResumeSkills.DedupCoversNames | backend/utils/skill_extractor_helper/resume_analyzer.py:175-191 | every lower-cased name of the input is represented in the result |
| ResumeSkills.BestOfUnique | backend/utils/skill_extractor_helper/resume_analyzer.py:178-188 | records whose names are already distinct are all stored, in order |
| ResumeSkills.DedupIdempotent | backend/utils/skill_extractor_helper/resume_analyzer.py:175-191 | de-duplicating twice gives the same list as de-duplicating once |
| ResumeSkills.FirstIndices | backend/utils/skill_extractor_helper/resume_analyzer.py:290-303 | exactly the positions whose lower-cased name did not occur earlier, in increasing order |
| ResumeSkills.FirstOccurrences | backend/utils/skill_extractor_helper/resume_analyzer.py:278-305 | the pairs are the first occurrences in input order, no two share a lower-cased name, and every lower-cased name of the input has its pair |
| ResumeSkills.SeenBefore | backend/utils/skill_extractor_helper/resume_analyzer.py:297 | a name is in the seen set exactly when its record is not the first with that lower-cased name |
| ResumeSkills.SkillsAsTuples | backend/utils/skill_extractor_helper/resume_analyzer.py:278-305 | the loop with its seen set returns exactly the pairs of the first occurrences |
| ResumeSkills.FirstIndicesUnique | backend/utils/skill_extractor_helper/resume_analyzer.py:297-300 | the first occurrences have distinct lower-cased names |
| ResumeSkills.FirstIndicesCover | backend/utils/skill_extractor_helper/resume_analyzer.py:292-303 | every lower-cased name of the input is the name of some first occurrence |
| ResumeSkills.Fixed1Value | backend/utils/skill_extractor_helper/resume_analyzer.py:341-343 | the one-decimal rendering of a non-negative confidence has digits, a point and one digit, and reads back to within 0.05 of the value |
| ResumeSkills.ReportLines | backend/utils/skill_extractor_helper/resume_analyzer.py:327-345 | the report lines are the tuple conversion's pairs in the same order, each as "name | Confidence: c", and asking for domains only inserts " (domain)" after the name |
| ResumeSkills.FormatOutput | backend/utils/skill_extractor_helper/resume_analyzer.py:318-346 | no skills gives "No skills detected."; otherwise at least one line is rendered |
| ResumeSkills.KindOf | backend/utils/skill_extractor_helper/resume_analyzer.py:77-88 | PDF and DOCX are chosen exactly when the lower-cased file type is "pdf" or "docx" |
| ResumeSkills.ExtractText | backend/utils/skill_extractor_helper/resume_analyzer.py:77-88 | plain text that fails to decode as UTF-8 gives "", and otherwise the decoded text |
| ResumeSkills.ExtractTextIgnoresCase | backend/utils/skill_extractor_helper/resume_analyzer.py:79-81 | the file type is matched without regard to case |
| ResumeSkills.AnalyzeResume | backend/utils/skill_extractor_helper/resume_analyzer.py:253-276 | no text gives no skills; the answer has distinct lower-cased names and is sorted by descending confidence |
| ResumeSkills.AnalyzeResumeFile | backend/utils/skill_extractor_helper/resume_skill_extractor.py:159-182 | no text gives `[]`; the pairs returned have distinct lower-cased names |
| GenerateSkills.HalfStep | backend/routers/generate_skills.py:24 | the result is a whole multiple of one half, within a quarter of the draw |
| GenerateSkills.HalfStepRange | backend/routers/generate_skills.py:24 | a draw from [3, 5] gives a half-point step inside [3, 5] |
| GenerateSkills.AddConfidence | backend/routers/generate_skills.py:22-26 | names and focus scores are kept; each confidence is a half-point step in [3, 5] within a quarter of its draw |
| GenerateSkills.MaxConfidence | backend/routers/generate_skills.py:34 | the result bounds every confidence and is one of them; 1 for the empty list |
| GenerateSkills.Normalize | backend/routers/generate_skills.py:28-43 | names are kept in order; a non-positive focus total makes every focus 0 and a non-positive maximum makes every confidence 0 |
| GenerateSkills.NormalizeFocusShare | backend/routers/generate_skills.py:39 | each normalised focus lies within 0.005 of the skill's exact share of the total |
| GenerateSkills.SharesSumToOne | backend/routers/generate_skills.py:30-39 | with a positive total the exact shares sum to one |
| GenerateSkills.NormalizeConfidenceUnit | backend/routers/generate_skills.py:40 | with non-negative confidences every normalised confidence lies in [0, 1] and the most confident skill gets exactly 1 |
| GenerateSkills.NormalizeFocusSum | backend/routers/generate_skills.py:30-39 | with a positive total the rounded focus scores sum to one within 0.005 per skill |
| GenerateSkills.RoundedShares | backend/routers/generate_skills.py:39 | the rounded focus scores are pairwise within 0.005 of the exact shares |
| SalaryMap.ParseMode | backend/routers/map.py:45 | the mode is accepted exactly when it is "CITY" or "STATE" |
| SalaryMap.SalaryFilter | backend/routers/map.py:51 | keeps every job whose salary lies in [minSalary, maxSalary], with its multiplicity, and nothing else |
| SalaryMap.SimilarFilter | backend/routers/map.py:54-56 | keeps only jobs the similarity test accepts and never adds one |
| SalaryMap.Select | backend/routers/map.py:60-61 | the jobs with key k, drawn from the list; empty exactly when no job has that key |
| SalaryMap.Summarize | backend/routers/map.py:64-68 | the count of a bucket is the number of jobs summed into it |
| SalaryMap.BucketsLookup | backend/routers/map.py:59-68 | each key's bucket holds the sums over exactly the jobs with that key, and a key no job has gets no bucket |
| SalaryMap.BucketsNonEmpty | backend/routers/map.py:64-66 | every bucket has a count of at least one, so the divisions at lines 76-78 are safe |
| SalaryMap.BucketsCountAll | backend/routers/map.py:59-68 | the bucket counts add up to the number of filtered jobs |
| SalaryMap.Points | backend/routers/map.py:71-80 | one point per bucket in bucket order, named by the key with all names distinct, and its salary and coordinates times the bucket's count give back the bucket's sums |
| SalaryMap.GetMap | backend/routers/map.py:43-49 | the request is refused with 422 exactly when the mode is not CITY or STATE or a salary bound is negative |
| SalaryMap.Filtered | backend/routers/map.py:50-56 | the filtered jobs lie in the salary range and come from the table; without a query only the salary filter applies |
| SalaryMap.PointsLookup | backend/routers/map.py:58-80 | the points name exactly the keys present, each carrying the means over its jobs |
| SalaryMap.MeanInRange | backend/routers/map.py:76 | the mean salary over jobs from the range lies in the range |
| SalaryMap.GetMapPoints | backend/routers/map.py:43-80 | a valid request answers one point per distinct key among the filtered jobs, whose fields are the means over those jobs, so its mean salary lies in the requested range |
| SalaryMap.GetMapNamesDistinct | backend/routers/map.py:59-80 | the point names of a response are distinct |
| ReadThrough.ReadList | backend/routers/scheduled_tasks.py:46-57 | a non-empty cached list is answered as is; otherwise the table rows are answered and cached only when there are some; no other user's entry changes |
| ReadThrough.ReadFresh | backend/routers/scheduled_tasks.py:46-57 | with a fresh entry the GET answers exactly what the table holds and leaves the entry fresh |
| TaskStore.GetTasks | backend/routers/scheduled_tasks.py:46-57 | a GET never changes the table |
| TaskStore.GetReadsTable | backend/routers/scheduled_tasks.py:46-57 | with a coherent cache, GET answers exactly the user's rows and keeps the cache coherent |
| TaskStore.Evict | backend/caches/scheduled_tasks_cache.py:7 | dropping an LRU entry keeps the table and keeps a coherent cache coherent |
| TaskStore.NewRows | backend/routers/scheduled_tasks.py:65-66 | one row per request item, in order, owned by the user id the item carries, with fresh ids from the counter up that increase along the rows |
| TaskStore.PostTasksAsWritten | backend/routers/scheduled_tasks.py:60-77 | as written, POST reports the number of rows added, replaces the path user's rows by the request rows and drops only the path user's cache entry |
| TaskStore.PostTasks | backend/routers/scheduled_tasks.py:60-77 | POST replaces the rows as written and also drops the cache entry of every user a request row names |
| TaskStore.PostReplacesRows | backend/routers/scheduled_tasks.py:62-67 | after POST the path user's rows are the request rows carrying the path id, and every user the request does not mention keeps their rows |
| TaskStore.PostOwnRows | backend/routers/scheduled_tasks.py:62-67 | when every request row carries the path id, the user's rows after POST are exactly the request rows in order |
| TaskStore.PostValidIds | backend/routers/scheduled_tasks.py:62-67 | POST keeps row ids distinct and below the counter |
| TaskStore.PostCoherent | backend/routers/scheduled_tasks.py:60-77 | the corrected POST keeps the cache coherent |
| TaskStore.PostAsWrittenCoherentOwnRows | backend/routers/scheduled_tasks.py:60-77 | as written, POST keeps the cache coherent when every request row carries the path id, and then it equals the corrected POST |
| TaskStore.PostAsWrittenGoesStale | backend/routers/scheduled_tasks.py:60-77 | a request row naming another user whose list is cached leaves that user reading a stale list |
| TaskStore.FindTask | backend/routers/scheduled_tasks.py:88 | the first row with the id; none exactly when no row has it |
| TaskStore.PatchStatus | backend/routers/scheduled_tasks.py:81-95 | 404 exactly for an unknown id; otherwise only the first row with the id gets the new status and nothing else changes |
| TaskStore.PatchValid | backend/routers/scheduled_tasks.py:81-95 | PATCH keeps the cache coherent and the ids valid |
| TaskStore.PatchTouchesOne | backend/routers/scheduled_tasks.py:88-91 | with distinct ids the patched row is the only one with that id, and it carries the new status |
| SkillStore.GetSkills | backend/routers/learn_skill.py:29-40 | a GET never changes the table |
| SkillStore.GetReadsTable | backend/routers/learn_skill.py:29-40 | with a coherent cache, GET answers exactly the user's rows and keeps the cache coherent |
| SkillStore.Tagged | backend/routers/learn_skill.py:49 | the rows are all of the path user's rows and none of anyone else's, and each row gives back its request item unchanged |
| SkillStore.PostSkills | backend/routers/learn_skill.py:42-54 | the user's cache entry is dropped and no other entry changes |
| SkillStore.PostReplaces | backend/routers/learn_skill.py:42-54 | after POST the user's skills are exactly the request, in order and unnormalised; everyone else's are untouched; the cache stays coherent |
| SkillStore.GeneratedRows | backend/routers/generate_skills.py:88-94 | the rows are all of the user's rows and none of anyone else's, and each row gives back its generated skill unchanged |
| SkillStore.GeneratedList | backend/routers/generate_skills.py:77-84 | one generated skill per scored skill, names kept in order |
| SkillStore.GenerateAsWritten | backend/routers/generate_skills.py:45-104 | as written, a missing goal answers 500, not 404, and the skill cache is left untouched on success |
| SkillStore.Generate | backend/routers/generate_skills.py:45-98 | the corrected endpoint answers 404 exactly without a goal and drops the user's skill cache entry on success |
| SkillStore.GenerateAsWrittenAnswers500 | backend/routers/generate_skills.py:47-104 | both fail on the same requests, as written with 500 instead of 404, and on success they write the same rows |
| SkillStore.GenerateStores | backend/routers/generate_skills.py:86-98 | generation stores exactly the list it returns for the user, leaves other users alone and keeps the cache coherent |
| SkillStore.GenerateAsWrittenGoesStale | backend/routers/generate_skills.py:86-98 | as written, a user whose skills were cached keeps reading the old list after generation |
| GoalStore.GetGoal | backend/routers/user_goal.py:42-54 | a GET never changes the goal table; no cached and no stored goal answers None; no other user's cache entry changes |
| GoalStore.GetReadsTable | backend/routers/user_goal.py:42-54 | with a coherent cache, GET answers the user's stored goal, or None, and keeps the cache coherent |
| GoalStore.UpsertGoal | backend/routers/user_goal.py:58-72 | after the upsert the user has a goal and every other user's goal is unchanged |
| GoalStore.UpsertThenGet | backend/routers/user_goal.py:58-72 | a GET right after an upsert answers the goal just sent without touching the store, and the upsert keeps the cache coherent |
| GoalStore.BaseName | backend/routers/user_goal.py:94 | the last path component: a suffix of the path without '/' |
| GoalStore.LastDot | backend/routers/user_goal.py:94 | the position of the last '.', and none exactly when there is no '.' |
| GoalStore.Extension | backend/routers/user_goal.py:94 | the extension is empty or a '.' followed by characters that are neither '.' nor '/' |
| GoalStore.AcceptedExtension | backend/routers/user_goal.py:94-98 | accepted exactly when the lower-cased extension is .pdf, .docx or .txt, and then that lower-cased extension is used |
| GoalStore.ReplaceKeepsOthers | backend/routers/user_goal.py:100-111 | replacing one user's resume leaves every other user's files alone |
| GoalStore.ReplaceLeavesOne | backend/routers/user_goal.py:103-111 | after replacing, the user has exactly one resume, the one just written |
| GoalStore.SaveResume | backend/routers/user_goal.py:91-113 | 400 exactly when the extension is unsupported; otherwise the user has exactly the new resume and every other user's files are unchanged |
| GoalStore.FirstPresent | backend/routers/user_goal.py:83-86 | the first extension in list order whose file exists; none exactly when none exists |
| GoalStore.GetResumeUrl | backend/routers/user_goal.py:80-88 | 404 exactly when the user has no resume with an allowed extension |
| GoalStore.SaveThenUrl | backend/routers/user_goal.py:91-113 | after a successful save the resume URL names the saved extension |
| GoalStore.RemoveResume | backend/routers/user_goal.py:116-130 | reports a deletion exactly when some resume existed; afterwards none is left, and only the user's resume files are removed |
| UserStore.FindEmail | backend/routers/user_login.py:75 | the first user with the e-mail; none exactly when no user has it |
| UserStore.Register | backend/routers/user_login.py:73-89 | 400 exactly when the e-mail is already registered; otherwise one user is appended with the hashed password and the lower-cased security answer |
| UserStore.RegisterValid | backend/routers/user_login.py:73-89 | registration keeps e-mails and ids unique |
| UserStore.Login | backend/routers/user_login.py:92-99 | 401 exactly when the e-mail is unknown or the password does not verify; a session names the user with that e-mail |
| UserStore.RegisterThenLogin | backend/routers/user_login.py:73-99 | right after registering, logging in with the e-mail succeeds exactly when the password verifies against the stored hash, and then returns the new user |
| UserStore.CurrentUser | backend/routers/user_login.py:46-61 | 401 exactly when the token carries no e-mail or no user has it; otherwise the user with that e-mail |
| UserStore.LoginTokenAuthenticates | backend/routers/user_login.py:46-99 | the token a login returns authenticates as the user who logged in |
| UserStore.GetUser | backend/routers/user_login.py:63-69 | 401 without a valid token, 403 exactly when the token's user is not the path user, otherwise that user's id, name and e-mail |
| UserStore.SecurityQuestion | backend/routers/user_login.py:102-107 | 404 exactly for an unknown e-mail; otherwise the question of a user with that e-mail |
| UserStore.VerifyAnswer | backend/routers/user_login.py:110-119 | 404 for an unknown e-mail; otherwise success exactly when the answers agree ignoring case, else 401 |
| UserStore.RegisterThenVerify | backend/routers/user_login.py:73-119 | after registering, verification succeeds exactly when the answer equals the registered one ignoring case |
| UserStore.Apply | backend/routers/user_login.py:127-131 | id, e-mail, question and answer are kept; the name and password change only when a non-empty value is sent |
| UserStore.UpdateUser | backend/routers/user_login.py:122-134 | 401 without a valid token and 403 exactly when the token's user is not the path user; no user is added or removed |
| UserStore.UpdateTouchesOne | backend/routers/user_login.py:122-134 | only the token's user is changed, and the table stays valid |
| UserStore.UpdateThenLogin | backend/routers/user_login.py:122-134 | after a password change, logging in succeeds exactly when the password verifies against the new hash |
| UserTable.Owned | backend/routers/scheduled_tasks.py:52 | the rows of user u, in table order: every row kept belongs to u |
| UserTable.Without | backend/routers/scheduled_tasks.py:62 | deleting user u's rows leaves no row of u and every other user's rows unchanged |
| UserTable.Replace | backend/routers/learn_skill.py:45-50 | deleting a user's rows and appending rows of that user leaves the user with exactly the new rows and everyone else untouched |
| ModuleProgress.CompletedCount | frontend/components/dashboard/module-progress.tsx:49 | the number of completed tasks never exceeds the module's task count |
| ModuleProgress.Percent | frontend/components/dashboard/module-progress.tsx:50 | the percentage lies in 0..100, is 0 with nothing completed and 100 with everything completed, and is the exact ratio rounded to the nearest integer |
| ModuleProgress.PercentMonotone | frontend/components/dashboard/module-progress.tsx:50 | completing more tasks never lowers the percentage |
| ModuleProgress.SkillLines | frontend/components/dashboard/module-progress.tsx:64-65 | one line per listed skill, carrying the number of the module's tasks with that skill |
| ModuleProgress.SkillCountsPartition | frontend/components/dashboard/module-progress.tsx:52-65 | the skill lines have distinct skills with positive counts, cover every task's skill, and their counts add up to the module's task count |
| ModuleProgress.CardOf | frontend/components/dashboard/module-progress.tsx:46-50 | a card's total is its module's task count, and no more than that many are completed |
| ModuleProgress.Cards | frontend/components/dashboard/module-progress.tsx:35-50 | one card per distinct module in order of first appearance, each with a positive total and a percentage in 0..100 |
| ModuleProgress.CardsPartition | frontend/components/dashboard/module-progress.tsx:35-39 | the cards have distinct module numbers, cover every task's module, and their totals add up to the number of tasks |
| ModuleProgress.CardPercentEnds | frontend/components/dashboard/module-progress.tsx:49-50 | a module whose tasks are all completed shows 100 percent, and one with none completed shows 0 |
| ModuleProgress.ProgressPanel | frontend/components/dashboard/module-progress.tsx:12-33 | loading while the fetch is pending, the error text when it failed, the empty message for no tasks, and otherwise the non-empty list of module cards |
| ModuleProgress.IntegerPart | frontend/components/schedule/miniModulePanel.tsx:32 | a date field that is accepted reads as that whole number under JavaScript's Number |
| ModuleProgress.ParseDate | frontend/components/schedule/miniModulePanel.tsx:32-33 | a date is accepted only when it has at least three '-'-separated fields |
| ModuleProgress.EarliestDefined | frontend/components/schedule/miniModulePanel.tsx:30-35 | the earliest of the parsed dates when every date parsed, and then it is one of them and no later than any |
| ModuleProgress.MiniCardOf | frontend/components/schedule/miniModulePanel.tsx:25-35 | the mini card carries its module number, the same percentage as the dashboard card, and the module's earliest date |
| ModuleProgress.MiniPanel | frontend/components/schedule/miniModulePanel.tsx:12-35 | nothing is rendered exactly when there are no tasks; otherwise one card per distinct module |
| ModuleProgress.MiniClickDate | frontend/components/schedule/miniModulePanel.tsx:30-40 | clicking a module card selects a date on which some task of the module falls, and no task of the module falls earlier |
| ModuleProgress.TwoDigits | frontend/components/stepTracker/step-schedule.tsx:123 | a two-digit field reads as a number below 100 |
| ModuleProgress.ClockSeconds | frontend/components/stepTracker/step-schedule.tsx:123-124 | an accepted "HH:mm:ss" time is a second of the day, below 24 hours |
| ModuleProgress.MinutesBetween | frontend/components/stepTracker/step-schedule.tsx:125 | whole minutes between the two times, truncated toward zero, negative when the end comes first |
| ModuleProgress.SumDefined | frontend/components/stepTracker/step-schedule.tsx:122-127 | the sum is defined exactly when every term is, since one NaN term makes the total NaN |
| ModuleProgress.TotalMinutesDefined | frontend/components/stepTracker/step-schedule.tsx:122-127 | the module's minute total is defined exactly when every task's times parse, and it adds the last task's duration to the total of the others |
| ModuleProgress.TotalMinutesAppend | frontend/components/stepTracker/step-schedule.tsx:122-127 | the minute total of two task lists is the sum of their totals |
| ModuleProgress.HoursShown | frontend/components/stepTracker/step-schedule.tsx:128 | the hours shown lie within 0.05 of the minutes divided by 60 |
| ModuleProgress.OverviewCardOf | frontend/components/stepTracker/step-schedule.tsx:119-161 | an overview card carries the module's skill counts and minute total, and shows hours exactly when the minutes are defined |
| ModuleProgress.FetchSettled | frontend/components/stepTracker/step-schedule.tsx:38-43 | a settled fetch stops the loading state, takes the fetched tasks when there are some and otherwise keeps the old ones |
| ModuleProgress.HandleGenerate | frontend/components/stepTracker/step-schedule.tsx:45-58 | generation always ends the generating state; on a response the preview becomes ready with the returned tasks and modules, or empty lists, and the parent is told exactly then |
| ModuleProgress.ScheduleView | frontend/components/stepTracker/step-schedule.tsx:60-173 | the loading text while loading, the spinner while generating, the call to generate for no tasks, and the module overview exactly when the preview is ready and there are tasks |
| ModuleProgress.GenerateShowsOverview | frontend/components/stepTracker/step-schedule.tsx:45-58 | a successful generation that returns tasks shows the module overview and notifies the parent |
| StudyDays.NoDays | frontend/app/dashboard/page.tsx:28-36 | no weekday is selected in the initial flags |
| StudyDays.Set | frontend/components/dashboard/weekly-hours.tsx:16-21 | the one flag is set to the value and the other six are unchanged |
| StudyDays.Toggle | frontend/components/dashboard/weekly-hours.tsx:16-21 | the toggled day's flag flips and the other six are unchanged |
| StudyDays.ToggleTwice | frontend/components/dashboard/weekly-hours.tsx:16-21 | toggling the same day twice restores the flags |
| StudyDays.AnyDayIff | frontend/app/dashboard/page.tsx:74 | some day is selected exactly when some weekday's flag is on |
| StudyDays.ToggleOnSelects | frontend/components/dashboard/weekly-hours.tsx:16-21 | switching an unselected day on makes some day selected |
| StudyDays.AsList | frontend/components/goal/goal-details.tsx:81-86 | the seven flags in Monday-first order, each at its weekday's index |
| StepTracker.Initial | frontend/components/stepTracker/stepTracker.tsx:26-31 | the tracker starts on the checking screen, in range, with Next disabled and Back a no-op; any answer ends the checking, and a missing answer leaves it at step 1 |
| StepTracker.FirstOpenStep | frontend/components/stepTracker/stepTracker.tsx:47-50 | step 1 exactly without a resume, 2 with a resume but no skills, 3 with both but no tasks, and 4 with all three |
| StepTracker.Initialize | frontend/components/stepTracker/stepTracker.tsx:33-58 | loading ends; with every answer in, the flags and tasks are recorded and the first undone step opens; a failed fetch leaves the step and tasks as they were |
| StepTracker.InitFailureStaysAtOne | frontend/components/stepTracker/stepTracker.tsx:51-55 | when a fetch fails the tracker stays at step 1 |
| StepTracker.InitOpensFirstUndone | frontend/components/stepTracker/stepTracker.tsx:47-50 | the step opened after loading has every earlier step done, and its Next is disabled unless it is the last |
| StepTracker.ArrowsStayInRange | frontend/components/stepTracker/stepTracker.tsx:60-61 | Next and Back keep the step in 1..4, undo each other away from the ends, and stop at 4 and 1 |
| StepTracker.ChildAt | frontend/components/stepTracker/stepTracker.tsx:124-139 | a wizard child is shown exactly for steps 1 to 3 |
| StepTracker.OnChange | frontend/components/stepTracker/stepTracker.tsx:126-134 | a child's change sets only its own flag and nothing else |
| StepTracker.ChangeEnablesNext | frontend/components/stepTracker/stepTracker.tsx:112-134 | once the shown child reports a change, Next is enabled |
| StepTracker.View | frontend/components/stepTracker/stepTracker.tsx:63-143 | the checking text while loading, the calendar and grid exactly at step 4, and otherwise the wizard with Back shown after step 1 and Next disabled per the step's flag |
| StepTracker.ClickNext | frontend/components/stepTracker/stepTracker.tsx:104-116 | clicking Next advances exactly when it is enabled and the step is below 4, and it never changes a flag |
| StepTracker.AllDoneShowsCalendar | frontend/components/stepTracker/stepTracker.tsx:33-80 | with a resume, skills and tasks the tracker opens on the calendar and grid with those tasks |
| MiniStepTracker.Initial | frontend/components/stepTracker/miniStepTracker.tsx:12-15 | the tracker starts on the checking screen, in range, with Back a no-op; any pair of answers ends the checking, and a missing answer leaves it at step 1 |
| MiniStepTracker.Initialize | frontend/components/stepTracker/miniStepTracker.tsx:17-40 | loading ends; a resume answer is recorded; when both fetches answer the step is 1 exactly without a resume, 2 with a resume but no skills and 3 with both; a failed fetch keeps the step |
| MiniStepTracker.ArrowsStayInRange | frontend/components/stepTracker/miniStepTracker.tsx:42-43 | Next and Back keep the step in 1..3, undo each other away from the ends, and stop at 3 and 1 |
| MiniStepTracker.OnResumeChange | frontend/components/stepTracker/miniStepTracker.tsx:96-99 | a resume change records the resume, keeps the skills flag and shows step 2 with Back, Next disabled exactly without skills and the skill child; while loading the checking screen stays |
| MiniStepTracker.OnSkillChange | frontend/components/stepTracker/miniStepTracker.tsx:104-107 | a skill change records the skills, keeps the resume flag and shows the skill list, from which Next changes nothing; while loading the checking screen stays |
| MiniStepTracker.NextDisabledEval | frontend/components/stepTracker/miniStepTracker.tsx:84-88 | evaluating the disabled flag fails exactly at step 3, where it reads an undefined name; otherwise Next is disabled at step 1 without a resume and at step 2 without skills |
| MiniStepTracker.View | frontend/components/stepTracker/miniStepTracker.tsx:45-112 | the checking text while loading, the skill list exactly at step 3, and otherwise the wizard with Back after step 1, Next disabled per the step's flag and a child for steps 1 and 2 |
| MiniStepTracker.FinishingStepsShowsSkills | frontend/components/stepTracker/miniStepTracker.tsx:94-109 | uploading a resume and then generating skills lands on the skill list, and after the upload Next is disabled exactly while there are no skills |
| DashboardSetup.InitialForm | frontend/app/dashboard/page.tsx:20-39 | the form starts in range without Back, with Next disabled and a click doing nothing; no file and no not-ready tick, blocked untouched hours worth 0, and no day selected |
| DashboardSetup.HandleNextStep | frontend/app/dashboard/page.tsx:70-80 | the step advances by one exactly when the page's guard does not block and nothing else or the payload changes; an enabled click's advance is always let through and stays in range; exclusivity is kept |
| DashboardSetup.PageGuardWeaker | frontend/app/dashboard/page.tsx:71-76 | whenever the page's guard blocks, the button is disabled as well, and away from step 1 the two agree |
| DashboardSetup.TitleOnlyPassesPageGuard | frontend/app/dashboard/page.tsx:72 | at step 1 a job title alone leaves the button disabled, yet the page's guard would let the step advance |
| DashboardSetup.ButtonAction | frontend/components/dashboard/step-navigation.tsx:111-114 | a click does nothing exactly when the button is disabled, advances before step 4 and confirms from step 4 on |
| DashboardSetup.ClickedNextAdvances | frontend/components/dashboard/step-navigation.tsx:111-114 | a click on an enabled Next button advances the step by one |
| DashboardSetup.HandlePrevStep | frontend/app/dashboard/page.tsx:82-89 | Back lowers the step by one, clears the chosen file and its text and changes nothing else; from a shown Back the step stays in range, the file and box are exclusive, and back on step 4 Confirm would be disabled exactly when the box is unticked |
| DashboardSetup.ButtonsStayInRange | frontend/components/dashboard/step-navigation.tsx:103-114 | the buttons keep the step within 1..4 |
| DashboardSetup.FileUpload | frontend/components/dashboard/step-navigation.tsx:23-28 | no file changes nothing; a file is recorded, unticks the box, gives the payload a resume text and at step 4 makes the click confirm; only file and box change, and exclusivity is kept |
| DashboardSetup.NotReadyChange | frontend/components/dashboard/step-navigation.tsx:30-41 | the box flips, leaving file and box exclusive; ticking drops the file and the payload's resume text and at step 4 makes the click confirm; unticking keeps the file; nothing else changes |
| DashboardSetup.HandlersKeepExclusive | frontend/components/dashboard/step-navigation.tsx:23-41 | the handlers never leave both a file chosen and the not-ready box ticked |
| DashboardSetup.ResumeStepChoice | frontend/components/dashboard/step-navigation.tsx:50 | at step 4, with the handlers' exclusivity, Confirm is enabled exactly when one of a file and the ticked box is present |
| DashboardSetup.HoursFromInput | frontend/components/dashboard/weekly-hours.tsx:33-34 | the hours never exceed 105 and never block the step; a parsed integer up to 105 is kept, a plain numeral gives its value capped at 105, and no integer prefix gives 0 |
| DashboardSetup.HoursFromNumber | frontend/components/dashboard/weekly-hours.tsx:33-34 | a typed numeral gives that number capped at 105; a negative numeral is kept |
| DashboardSetup.SetHours | frontend/components/dashboard/weekly-hours.tsx:33-34 | editing the hours never blocks afterwards, so at step 3 Next is disabled exactly without a day; the payload then sends the converted number, and nothing else changes |
| DashboardSetup.HoursUnblocked | frontend/components/dashboard/step-navigation.tsx:49 | with hours that do not block, step 3 disables Next exactly when no day is selected |
| DashboardSetup.EditedHoursNeverBlock | frontend/components/dashboard/step-navigation.tsx:49 | once the field has been edited, step 3 blocks exactly when no day is selected |
| DashboardSetup.ToggleDay | frontend/components/dashboard/weekly-hours.tsx:16-21 | the toggled day flips, the other days and every other field are unchanged |
| DashboardSetup.ToggleDayTwice | frontend/components/dashboard/weekly-hours.tsx:16-21 | toggling a day twice restores the form |
| DashboardSetup.WeeksPer | frontend/components/dashboard/learning-duration.tsx:6-7 | every unit is worth at least one week |
| DashboardSetup.ConvertToWeeks | frontend/components/dashboard/learning-duration.tsx:4-9 | the integer prefix times the unit's weeks, and 0 when there is none |
| DashboardSetup.ConvertMonotone | frontend/components/dashboard/learning-duration.tsx:4-9 | a larger typed number never shows fewer weeks |
| DashboardSetup.DurationWeeks | frontend/app/dashboard/page.tsx:100 | the payload's weeks are NaN exactly when the duration is not a JavaScript number, and otherwise that number times the unit's weeks |
| DashboardSetup.PreviewAgreesWithPayload | frontend/components/dashboard/learning-duration.tsx:34 | when the text reads the same under parseInt and Number, the preview and the stored weeks agree |
| DashboardSetup.PreviewAgreesOnNumeral | frontend/components/dashboard/learning-duration.tsx:34 | for a plain decimal numeral the preview and the stored weeks agree |
| DashboardSetup.WeeklyHoursNumber | frontend/app/dashboard/page.tsx:101 | the hours sent are a whole number, the stored one, at most 105 once edited, and 0 for the untouched field |
| DashboardSetup.PayloadOf | frontend/app/dashboard/page.tsx:95-104 | the goal payload carries the fields as typed, null for an empty responsibility, the converted weeks and hours, no resume text exactly when not ready, and the days |
| DashboardSetup.Mount | frontend/app/dashboard/page.tsx:42-62 | the page starts loading with a fresh form, is authenticated exactly with a token and a user id, and only then fetches the goal |
| DashboardSetup.GoalFetched | frontend/app/dashboard/page.tsx:53-61 | loading ends; setup counts as complete exactly when it was or a goal came back |
| DashboardSetup.Confirm | frontend/app/dashboard/page.tsx:92-116 | the goal is always sent first and the resume only after it succeeds with a file chosen; setup completes exactly when the goal and any file upload succeed |
| DashboardSetup.PageView | frontend/app/dashboard/page.tsx:64-151 | loading screen exactly while loading, the heading exactly when set up, else the wizard at the form's step with Back and Next as computed |
| DashboardSetup.RedirectShowsLoading | frontend/app/dashboard/page.tsx:43-49 | without a token or user id nothing is fetched and the loading screen stays up |
| DashboardSetup.ResumeTextStaysEmpty | frontend/app/dashboard/page.tsx:38 | no handler ever fills the resume text, so the payload's resume text is null or empty |
| GoalEditor.HandleChange | frontend/components/goal/goal-details.tsx:74-79 | the one field changed takes the new value, numeric fields through JavaScript's Number, and every other field and the days are unchanged |
| GoalEditor.ChangesCompose | frontend/components/goal/goal-details.tsx:74-79 | a later change of the same field overrides an earlier one, and changes of different fields commute |
| GoalEditor.ToggleDay | frontend/components/goal/goal-details.tsx:81-86 | the toggled day flips and the other days and fields are unchanged |
| GoalEditor.WarningFor | frontend/components/goal/goal-details.tsx:107-119 | no warning exactly when there are neither skills nor a schedule; otherwise the message names exactly what exists |
| GoalEditor.WarningNamesWhatIsLost | frontend/components/goal/goal-details.tsx:109-113 | the warning mentions skills exactly when there are skills and the schedule exactly when there is one |
| GoalEditor.InitialEditor | frontend/components/goal/goal-details.tsx:48-56 | the panel starts on the loading text, not editing, with no warning pending, and cancelling changes nothing |
| GoalEditor.MountCalls | frontend/components/goal/goal-details.tsx:58-72 | the goal, skills and schedule are fetched together, goal first, exactly when a non-empty user id is stored, and nothing else is called |
| GoalEditor.GoalArrived | frontend/components/goal/goal-details.tsx:61-67 | loading ends with editing and the warning kept; a fetched goal is shown with those and is what cancel restores; a null goal keeps the loading text; a failed fetch shows what the panel showed before |
| GoalEditor.SkillsArrived | frontend/components/goal/goal-details.tsx:69 | the view is unchanged, and a later save warning mentions skills exactly when some skill came back |
| GoalEditor.ScheduleArrived | frontend/components/goal/goal-details.tsx:70 | the view is unchanged, and a later save warning mentions the schedule exactly when some task came back |
| GoalEditor.EditorView | frontend/components/goal/goal-details.tsx:126-127 | the loading text while loading or without a buffer, the no-goal text without a goal, and otherwise the details of the edit buffer |
| GoalEditor.Input | frontend/components/goal/goal-details.tsx:156-239 | outside editing an input changes nothing; while editing it changes only the buffer's field, and cancel still restores the saved goal |
| GoalEditor.ClickDay | frontend/components/goal/goal-details.tsx:223 | outside editing a day click changes nothing; while editing it flips only that day of the buffer, and cancel still restores the saved goal |
| GoalEditor.StartEditing | frontend/components/goal/goal-details.tsx:144 | Edit turns editing on and shows the same details in edit mode, keeping the goal and the buffer, and cancel gives the same panel as before |
| GoalEditor.Cancel | frontend/components/goal/goal-details.tsx:121-124 | the buffer becomes the saved goal and editing ends, so a loaded goal is shown read-only with the warning state kept; nothing else changes |
| GoalEditor.CancelDiscardsEdits | frontend/components/goal/goal-details.tsx:121-124 | cancelling after an input or a day click gives back the saved goal, as if nothing had been edited |
| GoalEditor.ConfirmAndSave | frontend/components/goal/goal-details.tsx:88-104 | the goal is always sent first; skills are cleared exactly when the goal saved and there were skills, and the schedule exactly when that also succeeded and there was one; the warning closes; success stores the buffer and leaves editing, failure keeps the panel |
| GoalEditor.ClearFailureKeepsEditing | frontend/components/goal/goal-details.tsx:94-101 | a failed skill clear after a saved goal keeps the old goal shown and the panel in editing |
| GoalEditor.HandleSave | frontend/components/goal/goal-details.tsx:107-119 | nothing is sent exactly when there are skills or a schedule, and then a warning opens that names exactly what exists; otherwise only the buffer is sent, no clear is ever called, and the goal is kept or replaced by the saved buffer |
| GoalEditor.DismissWarning | frontend/components/goal/goal-details.tsx:246 | only the warning closes, the view changes only in the warning, and confirming afterwards does exactly what confirming before would |
| GoalEditor.SaveClearsWhatExists | frontend/components/goal/goal-details.tsx:88-119 | confirming clears exactly the skills and schedule that existed and stores the edited goal |
| GoalEditor.PlainSave | frontend/components/goal/goalDetails.tsx:60-69 | only the buffer is sent; on success it is shown read-only as the saved goal and cancel changes nothing more; on failure nothing changes; without skills, schedule or warning it is the newer panel's save |
| GoalEditor.PanelsAgreeWithoutHistory | frontend/components/goal/goalDetails.tsx:60-69 | without skills or a schedule both goal panels save the same way |
| SkillEditor.SetFocus | frontend/components/skill/learnSkill.tsx:37-41 | only the focus of the skill at the index changes; an index outside the list changes nothing |
| SkillEditor.SetConfidence | frontend/components/skill/learnSkill.tsx:43-47 | only the confidence of the skill at the index changes; an index outside the list changes nothing |
| SkillEditor.SetFocusLastWins | frontend/components/skill/learnSkill.tsx:37-41 | a later focus edit at the same index overrides an earlier one, and writing the current value changes nothing |
| SkillEditor.Delete | frontend/components/skill/learnSkill.tsx:77-80 | a valid index removes exactly that skill and keeps the others in order; any other index changes nothing |
| SkillEditor.DeleteRemovesOne | frontend/components/skill/learnSkill.tsx:77-80 | the deleted list plus the removed skill is a rearrangement of the original |
| SkillEditor.FocusTotal | frontend/components/skill/learnSkill.tsx:56 | the focus total is a number exactly when every focus is one, and then it is their sum |
| SkillEditor.MaxConfidence | frontend/components/stepTracker/stepSkill.tsx:70 | the maximum is at least 0, bounds every cleaned confidence, and is 0 or one of them |
| SkillEditor.LearnShare | frontend/components/skill/learnSkill.tsx:61 | a share is a number exactly when focus and total are, and lies within 0.00005 of their quotient |
| SkillEditor.NormalizeLearn | frontend/components/skill/learnSkill.tsx:55-63 | names and confidences are kept; a zero total leaves the list alone, a NaN total makes every focus NaN, and otherwise each focus becomes its four-decimal share |
| SkillEditor.LearnFocusSumNearOne | frontend/components/skill/learnSkill.tsx:55-63 | with a positive total the normalised foci sum to one within 0.00005 per skill |
| SkillEditor.LearnRounded | frontend/components/skill/learnSkill.tsx:61 | each normalised focus lies within 0.00005 of its exact share |
| SkillEditor.InitialLearn | frontend/components/skill/learnSkill.tsx:14-18 | the panel shows the loading text at every step, with no skills, not editing, and cancelling changes nothing |
| SkillEditor.LearnMountCalls | frontend/components/skill/learnSkill.tsx:20-31 | the skills are fetched exactly at step 3 and nothing else is called; without the fetch the panel keeps the loading text |
| SkillEditor.LearnFetched | frontend/components/skill/learnSkill.tsx:22-29 | loading ends, so from step 3 the cards show the list with editing kept; fetched skills become both the list and what cancel restores; a failed fetch keeps both |
| SkillEditor.LearnPanelView | frontend/components/skill/learnSkill.tsx:82-83 | the loading text while loading, nothing before step 3, and otherwise the skill cards |
| SkillEditor.LearnOffStepKeepsLoading | frontend/components/skill/learnSkill.tsx:20-31 | mounted before step 3 the panel never fetches and so stays on the loading text |
| SkillEditor.LearnFocusInput | frontend/components/skill/learnSkill.tsx:165-167 | outside editing nothing changes; while editing the list keeps its length and names, the focus at the index becomes parseFloat of the text, and cancel still restores the backup |
| SkillEditor.LearnConfidenceInput | frontend/components/skill/learnSkill.tsx:175-177 | outside editing nothing changes; while editing the list keeps its length and names, the confidence at the index becomes parseFloat of the text, and cancel still restores the backup |
| SkillEditor.LearnDelete | frontend/components/skill/learnSkill.tsx:137-145 | outside editing or out of range nothing changes; otherwise the list loses exactly the skill at the index, as a multiset, and cancel still restores the backup |
| SkillEditor.LearnCancel | frontend/components/skill/learnSkill.tsx:49-53 | the list becomes the backup and editing ends, loading kept, so from step 3 the cards show the backup read-only |
| SkillEditor.LearnSave | frontend/components/skill/learnSkill.tsx:65-75 | exactly one call sends the normalised list, same length and names; on success it is shown read-only and cancel changes nothing more; on failure nothing changes |
| SkillEditor.LearnCancelRestores | frontend/components/skill/learnSkill.tsx:37-80 | cancel undoes any focus, confidence or delete edit, and after a save it changes nothing |
| SkillEditor.FixedText | frontend/components/stepTracker/stepSkill.tsx:52-53 | a two-decimal rendering has at least three characters |
| SkillEditor.InitialStep | frontend/components/stepTracker/stepSkill.tsx:16-21 | the panel starts on the loading text, not editing, with no edit values, no skills, and cancelling changes nothing |
| SkillEditor.StepMountCalls | frontend/components/stepTracker/stepSkill.tsx:24-33 | mounting fetches the skills, and whatever answer comes back the loading text goes away |
| SkillEditor.StepFetched | frontend/components/stepTracker/stepSkill.tsx:25-32 | loading ends and the loading text goes away; an answer fills both the list and what cancel restores, and the generate prompt shows exactly for an empty answer; a failed fetch keeps both lists |
| SkillEditor.StepGenerate | frontend/components/stepTracker/stepSkill.tsx:36-47 | generation is requested and always ends; a response replaces the skills and notifies the parent exactly then; the backup is kept, so cancel brings the old list back; once loaded the view shows neither spinner nor loading text |
| SkillEditor.StepEdit | frontend/components/stepTracker/stepSkill.tsx:49-60 | editing starts with one two-decimal text pair per skill index and nothing else changes |
| SkillEditor.OrZeroText | frontend/components/stepTracker/stepSkill.tsx:87-88 | an empty edit text is read as "0" |
| SkillEditor.StepParsed | frontend/components/stepTracker/stepSkill.tsx:86-94 | every skill keeps its name and gets numeric scores |
| SkillEditor.MissingEditReadsZero | frontend/components/stepTracker/stepSkill.tsx:87-92 | a skill without edit values is saved with both scores 0 |
| SkillEditor.FixedTextReadsBack | frontend/components/stepTracker/stepSkill.tsx:52-53 | reading back a two-decimal rendering gives the score rounded to two decimals |
| SkillEditor.EditThenParseRounds | frontend/components/stepTracker/stepSkill.tsx:49-94 | starting to edit and saving untouched rounds every score to two decimals and changes nothing else |
| SkillEditor.NormalizeStep | frontend/components/stepTracker/stepSkill.tsx:68-82 | names are kept and scores are numbers; a non-positive focus total makes every focus 0 and a non-positive maximum every confidence 0 |
| SkillEditor.StepConfidenceUnit | frontend/components/stepTracker/stepSkill.tsx:70-79 | with non-negative confidences every normalised confidence lies in [0, 1], and some skill gets exactly 1 when the maximum is positive |
| SkillEditor.StepMatchesEndpoint | frontend/components/stepTracker/stepSkill.tsx:68-82 | the panel's normalisation agrees with the generation endpoint's to within 0.01 per score |
| SkillEditor.StepSave | frontend/components/stepTracker/stepSkill.tsx:84-107 | exactly one call sends numeric scores for the same names; the parent is notified exactly on success, when the list is shown read-only, edit values are cleared and cancel changes nothing more; on failure nothing changes |
| SkillEditor.StepDelete | frontend/components/stepTracker/stepSkill.tsx:109-112 | an index out of range changes nothing; otherwise the list loses exactly the skill at the index, as a multiset, and cancel still restores the backup |
| SkillEditor.StepCancel | frontend/components/stepTracker/stepSkill.tsx:62-66 | the list becomes the backup and editing ends, edit values kept; when idle the generate prompt shows exactly when the backup is empty |
| SkillEditor.StepCancelAfterGenerateAndSave | frontend/components/stepTracker/stepSkill.tsx:36-107 | generation does not update the backup, so cancel after it brings the old skills back; after a save cancel changes nothing |
| SkillEditor.StepPanelView | frontend/components/stepTracker/stepSkill.tsx:114-171 | the loading text while loading, the spinner while generating, and the generate prompt exactly when there are no skills |
| NumberText.Scan | frontend/components/stepTracker/stepSkill.tsx:87 | an accepted number has digit strings for its whole and fractional parts, not both empty |
| NumberText.ParseFloat | frontend/components/stepTracker/stepSkill.tsx:87 | parseFloat gives NaN exactly when no number can be scanned |
| NumberText.FixedUnitsValue | frontend/components/stepTracker/stepSkill.tsx:52 | toFixed(p) is a whole number of units of 10^-p |
| NumberText.FixedString2 | frontend/components/stepTracker/stepSkill.tsx:52 | the rendering ends with a point and two digits and starts with '-' exactly when x is negative, as `toFixed` takes the sign from x and not from the rounded digits |
| NumberText.FixedUnitsSign | frontend/components/stepTracker/stepSkill.tsx:52 | the rounded units of a negative value are at most 0 and of any other value at least 0 |
| NumberText.SmallNegativeKeepsSign | frontend/components/stepTracker/stepSkill.tsx:52 | a negative score that rounds to zero still renders with its sign, as "-0.00" |
| NumberText.ParseFloatParts | frontend/components/stepTracker/stepSkill.tsx:87 | a signed decimal numeral parses to its value |
| NumberText.ParseFixedString2 | frontend/components/stepTracker/stepSkill.tsx:52-88 | parsing the two-decimal rendering of x gives x rounded to two decimals |

`ScheduleGrid.TimeOffset` draws the current-time line for every hour from 8 through 21 inclusive
(`frontend/components/schedule/scheduleGrid.tsx:19`), so the line is also drawn between 21:00 and
22:00.

## Left out

- Floating point: Python and JavaScript floats are exact reals here, so `round` and `toFixed` agree with the source except where IEEE doubles round an exact half differently, and there is no negative zero (`(-0).toFixed(2)` is "0.00" in the browser).
- I/O: the database, files, HTTP bodies and the clock are parameters or inputs; an endpoint is a function from the table and cache state to the new state and its answer.
- The LLM calls, the PDF and DOCX decoders and the md5-keyed LLM cache are left out; their outputs are inputs.
- The linear-programming session solver (`task_generator.py:98-151`) is not modelled; its answer is an input, and properties that depend on it carry that answer's shape in their `requires`.
- Sentence embeddings and cosine similarity (`job_domain_classifier.py:148-197`, `map.py:31-35`) are left out; the classifier is modelled without an embedding model, and the salary map takes the similarity decision as a parameter.
- Randomness: the random draws of skill generation are inputs.
- The networkx graph work of module grouping (`module_generator.py:34-72`), cycle breaking and topological sort, is not modelled; the ordered skill list is an input.
- The regular-expression parsing of the cluster text file (`parse_cluster_data`) is not modelled; the clusters are an input dictionary.
- The difflib fuzzy title matching and the logarithmic weighting terms of skill importance (`calculate_skill_importance.py:97-163`) are not modelled; their results are inputs.
- bcrypt hashing and JWT signing are parameters, with no property assumed beyond a statement's own `requires`.
- UserStore.RegisterThenLogin: assumes the verifier accepts the password the hash was made from; bcrypt's truncation of passwords at 72 bytes is not modelled.
- UserStore.UpdateThenLogin: the same assumption about the verifier as `UserStore.RegisterThenLogin`; the 72-byte truncation is not modelled.
- TaskStore.Evict: the LRU caches drop an arbitrary entry; the recency order is not modelled.
- `user_logout.py`, `main.py`, the ORM declarations of `models.py`, the `generate_task.py` orchestration and the real-time job scrapers are not part of this model.
- CourseSelection.GreedySelect: sorts with a stable sort; pandas `sort_values` (`course_selection.py:59`) is not guaranteed stable, so courses of equal duration may be taken in another order.
- CourseSelection.Shortest: the same stable-sort assumption for `sort_values` (`course_selection.py:80-83`).
- JobDomain.IsWordChar: counts every non-ASCII character as a word character, while Python's `\w` excludes non-ASCII punctuation such as the en dash.
- Text.LowerChar: lowers ASCII letters only, while Python and JavaScript also lower non-ASCII letters such as "É".
- Text.IsSpace: covers ASCII whitespace only, not the separators `\x1c`-`\x1f`, `\x85` and `\xa0` that Python's `split` and `strip` also treat as whitespace.
- Numeric.ParseInt: reads only ASCII whitespace before the number (see `Text.IsSpace`); the hexadecimal prefix and the decimal and hexadecimal digit runs are modelled.
- NumberText.ParseFloat: reads decimal notation only; JavaScript's `parseFloat` also reads an exponent and `Infinity`, so "1e-2" is 1 here and 0.01 in the browser, and the number inputs of `learnSkill.tsx:166` and `:176` accept such text.
- Numeric.ToNumber: accepts signed decimal numerals only; JavaScript's `Number` also reads exponents, hexadecimal and `Infinity`, so "1e2" is NaN here and 100 in the browser (this reaches `DashboardSetup.DurationWeeks` through `page.tsx:100` and the goal editor through `goal-details.tsx:200`).
- ModuleProgress.IntegerPart: rejects a fractional date field that `new Date` would truncate.
- ModuleProgress.ParseDate: rejects fractional fields, and does not map the years 0-99 to 1900-1999 as `new Date(y, m, d)` does.
- Calendar.JsDate: does not map the years 0-99 to 1900-1999 as `new Date(y, m, d)` does.
- ModuleScheduling.WeeksAsWritten: the loop as written is run for a `fuel` number of weeks, since it need not end; `None` stands for running out of them.
- No schedule component filters tasks, skips them automatically or completes them on click; task status changes from the grid are not modelled.
- Timers, `useEffect` scheduling and React re-rendering are not modelled: a component is its state, its handlers as functions and its view as a function of the state.

## Findings

| source | as written | input that shows it | evidently intended | confidence | as-written member | corrected member |
|---|---|---|---|---|---|---|
| backend/utils/schedule_generator_helper/task_generator.py:203-216 | `while hours_remaining > 0` plans each week with `distribute_weekly_hours`, which hands out whole half hours only, so with more than nothing but less than half an hour left (of the module or of the weekly budget) no hours are handed out and the loop never ends | a one-skill module of 0.2 h (what `assign_module_durations` gives a small focus share) with 10 weekly hours | stop once a week can hand out nothing, returning the tasks so far | not executed | ModuleScheduling.AsWrittenNeverEnds | ModuleScheduling.ScheduleModule |
| backend/routers/scheduled_tasks.py:60-77 | the POST deletes the path user's tasks and inserts the request's tasks with their own `user_id`, but clears only the path user's task cache | user 1 has a cached list; a POST for user 2 carries a task for user 1 | keep the cache coherent with the table for every user whose rows change | not executed | TaskStore.PostAsWrittenGoesStale | TaskStore.PostCoherent |
| backend/routers/generate_skills.py:47-104 | the 404 for a missing goal is raised inside the `try`, so the closing `except Exception` catches it, rolls back and answers 500 | a user with no goal asks for generated skills | answer 404 for a missing goal | not executed | SkillStore.GenerateAsWrittenAnswers500 | SkillStore.Generate |
| backend/routers/generate_skills.py:88-98 | after committing the newly generated skills the handler does not clear the user's skill cache, so the next GET answers the old list | user 7 has a cached list holding "Java" and generates a list holding "Python" | clear the user's skill cache after the commit | not executed | SkillStore.GenerateAsWrittenGoesStale | SkillStore.GenerateStores |
