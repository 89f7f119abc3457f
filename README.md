# Browser assignment tracker core in Dafny

A model of the task logic of a browser task and assignment tracker (`script.js`): the
deadline status classifier behind each task's badge, the filter engine
(search, status and subject selectors joined by AND), the in-place sort that
puts urgent work first, the four counts of the statistics panel, and the
task store operations (create, toggle, delete, the subject drop-down). The
clock, the local calendar, id generation and persistence are parameters.

Files and modules:

- `seqs.dfy` — `Seqs`: `Keep` (the model of `Array.prototype.filter`) and
  the order-preserving subsequence relation, with the lemmas the other
  modules use about it.
- `text.dfy` — `Text`: `trim`, ASCII `toLowerCase`, `includes`, the string
  order of the default `sort`, decimal rendering of integers.
- `tasks.dfy` — `Tasks`: the task record, the `Clock` (current instant and
  an abstract `dayOf` numbering local calendar days), and the shared
  "overdue" and "due today" predicates.
- `deadline.dfy` — `Deadline`: `createTaskHTML`'s flags and
  `getDeadlineStatus` as a closed `Status` datatype.
- `filter.dfy` — `Filter`: `currentFilters` as `Criteria`, `filterTasks`,
  `updateResetButton`'s predicate.
- `sorting.dfy` — `Sorting`: the comparator of `sortTasks` and an in-place
  array sort proved against it.
- `stats.dfy` — `Stats`: the counts of `updateStats`.
- `store.dfy` — `Store`: task creation from the form, `toggleTaskComplete`,
  `deleteTask` and the subject list, as functions on the task sequence.
- `tracker.dfy` — `Tracker`: a class holding `tasks`, `currentFilters` and
  the subject drop-down, whose methods are the event handlers.

Modelling choices:

- Timestamps are `int` milliseconds. `Math.ceil((deadline - now) / 86400000)`
  is exact integer ceiling division (`Deadline.DaysUntil`).
- "Same local calendar day" (`toDateString()` equality) compares
  `clock.dayOf` of both instants. `dayOf` is left abstract. Only
  `Sorting.UpcomingOrderIsDeadlineOrder` assumes it never runs backwards.
- The sort fixes the instant once. The source calls `new Date()` inside the
  comparator, so one sort can see several instants.
- The empty deadline field is `None` in `Store.TaskForm`. A filled field is
  the instant it denotes.
- The status selector is a closed datatype of its five options. The subject
  selector stays a string with `"all"` as its default, because the source
  compares it to task subjects.

Behaviour of the code that is easy to misread, and that the model keeps:

- For an open task whose deadline passed earlier today, the classifier says
  "Overdue", not "Due Today". The due-today count and the 'due-today'
  selector still include that task, so it counts in both statistics
  (`Stats.OverdueAndDueTodayOverlap`).
- The comparator applies its due-today rule inside the overdue group too,
  and among completed tasks. So a task that fell overdue earlier today sorts
  before one overdue since yesterday (`Sorting.OverdueTodayBeforeOlderOverdue`).
- `sortTasks` sorts the filtered array in place. It is not a pure function.
- `updateSubjectFilter` resets the drop-down to "All Subjects" when the
  selected subject disappears. It leaves `currentFilters.subject` as it was.
  The model keeps this behaviour (`Tracker.StaleSubjectCriterion`).

## Model

| member | source | states |
|---|---|---|
| `Tasks.SameDay` | script.js:325-326 | the `toDateString()` comparison of the deadline with now; its use is stated by `Deadline.Classify` and `Deadline.DestructiveBadge` |
| `Tasks.IsOverdue` | script.js:194-197 | a passed deadline on an open task (also script.js:237, 263-264 and 325); stated by `Deadline.Classify`, `Stats.OverdueCountMatchesFilter` and `Sorting.SortedOrder` |
| `Tasks.IsDueToday` | script.js:190-193 | an open task whose deadline is on today's date (also script.js:244); stated by `Stats.DueTodayCountMatchesFilter` and `Stats.OverdueAndDueTodayOverlap` |
| `Seqs.Keep` | script.js:142 | the filter result is a subsequence of the input, every kept element passes, and each passing element is kept exactly as often as it occurs |
| `Seqs.KeepSplit` | script.js:189-197 | if a predicate splits into two disjoint cases, the two filtered lengths add up to its filtered length |
| `Text.Trim` | script.js:105 | trim returns an infix whose cut-off prefix and suffix are white space, and which neither starts nor ends with white space |
| `Text.TrimEmptyIff` | script.js:110 | the trimmed title is empty exactly when the title is all white space |
| `Text.Lower` | script.js:230-232 | lower-casing keeps the length, leaves no capital ASCII letter, turns each capital into the small letter 32 code points above it, and keeps every other character |
| `Text.LowerIdempotent` | script.js:230-232 | lower-casing an already lowered string changes nothing |
| `Text.Includes` | script.js:230-232 | `String.prototype.includes`; its meaning is stated by `Text.IncludesIff` |
| `Text.IncludesIff` | script.js:230-232 | `includes` holds exactly when the needle occurs at some position of the haystack |
| `Text.StrLess` | script.js:206 | the string order of the default `sort`; stated to be a strict total order by `Text.StrLessIrreflexive`, `Text.StrLessTransitive` and `Text.StrLessTotal` |
| `Text.StrLessIrreflexive` | script.js:206 | no string sorts before itself |
| `Text.StrLessTransitive` | script.js:206 | the string order of the default sort is transitive |
| `Text.StrLessTotal` | script.js:206 | any two distinct strings are ordered one way or the other |
| `Text.NatToDecimal` | script.js:401 | a natural number is rendered as decimal digits whose value is the number, without a leading zero, and as "0" for zero |
| `Text.IntToDecimal` | script.js:407 | an integer is rendered with a leading minus exactly when negative, followed by the digits of its magnitude without a leading zero (a lone "0" for zero) |
| `Deadline.DaysUntil` | script.js:327-328 | the days until the deadline are the ceiling of the millisecond difference over one day |
| `Deadline.GetDeadlineStatus` | script.js:374-411 | the first flag that holds decides: Completed for a completed task, else Overdue when the overdue flag is set, else Due Today when the due-today flag is set; the badge is plain exactly for completed tasks and red exactly for open tasks with the overdue or due-today flag; "Due Tomorrow" exactly when neither flag is set and the day count is 1; any other count is shown as it is, secondary up to 7 |
| `Deadline.VariantOf` | script.js:376-408 | the `variant` field of each status; stated by `Deadline.GetDeadlineStatus` and `Deadline.DestructiveBadge` |
| `Deadline.Label` | script.js:376-407 | the `text` field of each status; the "n days left" form is stated by `Deadline.DaysLeftText` |
| `Deadline.HasIcon` | script.js:376-409 | whether the `icon` field is set; stated by `Deadline.IconUnlessCompleted` |
| `Deadline.IconUnlessCompleted` | script.js:376-409 | a badge carries an icon exactly while its task is open |
| `Deadline.Classify` | script.js:322-330 | Completed for every completed task; otherwise Overdue when the deadline passed; otherwise Due Today on today's date; otherwise the deadline is strictly ahead, Due Tomorrow when at most one day ahead, else "n days left" with n >= 2 the rounded-up days, secondary up to 7 and outline above |
| `Deadline.DestructiveBadge` | script.js:378-391 | the red badge marks exactly the open tasks whose deadline passed or falls on today's date |
| `Deadline.DeadlineNowIsDueToday` | script.js:325 | a deadline equal to the current instant is due today, not overdue |
| `Deadline.DaysLeftText` | script.js:399-410 | the "n days left" text is the classifier's day count in decimal digits, without sign or leading zero, followed by " days left" |
| `Filter.HasActiveFilters` | script.js:177-180 | the reset button shows exactly when the criteria differ from the defaults (empty search, all statuses, all subjects) |
| `Filter.MatchesSearch` | script.js:229-232 | the search test: empty search, or the lowered search text inside the lowered title, description or subject; stated through `Filter.FilterTasks` and `Filter.SearchIgnoresCase` |
| `Filter.MatchesStatus` | script.js:240-244 | the status test of the five selector values; stated through `Filter.FilterTasks`, `Filter.CompletedPendingPartition` and the count lemmas of `Stats` |
| `Filter.MatchesSubject` | script.js:247 | the subject test: "all", or the task's subject equal to the selected one; stated through `Filter.FilterTasks` |
| `Filter.Passes` | script.js:249 | the AND of the three tests; `Filter.FilterTasks` keeps exactly the tasks that pass |
| `Filter.FilterTasks` | script.js:226-251 | the result is an order-preserving subsequence of the store holding exactly the tasks that pass search AND status AND subject, with their multiplicities |
| `Filter.SearchIgnoresCase` | script.js:229-232 | two search texts that lower-case alike select the same tasks |
| `Filter.SearchIgnoresLetterCase` | script.js:229-232 | two search texts that differ only in the case of ASCII letters ("MATH", "Math") select the same tasks |
| `Filter.InactiveFiltersKeepAll` | script.js:240-247 | with default criteria the filter returns the store unchanged |
| `Filter.CompletedPendingPartition` | script.js:240-242 | under one search and subject, the 'completed' and 'pending' result lengths add up to the 'all' result length |
| `Filter.CompletedPendingCover` | script.js:240-242 | with default search and subject, the 'completed' and 'pending' result lengths add up to the store size |
| `Stats.ComputeStats` | script.js:186-197 | total is the store size; completed <= total; due-today and overdue are each at most total - completed |
| `Stats.CompletedPlusPending` | script.js:189 | completed and open tasks together make up the store |
| `Stats.OverdueCountMatchesFilter` | script.js:194-197 | the overdue count equals the length of the 'overdue' filter result with default search and subject |
| `Stats.DueTodayCountMatchesFilter` | script.js:190-193 | the due-today count equals the length of the 'due-today' filter result with default search and subject |
| `Stats.CompletedPlusPendingFilter` | script.js:189 | the completed count plus the 'pending' filter length is the total |
| `Stats.OverdueAndDueTodayOverlap` | script.js:190-197 | an open task whose deadline passed earlier today is counted both due today and overdue |
| `Stats.StatsOfPrepend` | script.js:122-124 | prepending a task adds exactly its own contribution to each count |
| `Sorting.Compare` | script.js:254-280 | the comparator ties exactly for tasks that agree on completion, both flags and the deadline; its order is stated by `Sorting.LeqTransitive` and `Sorting.SortedOrder` |
| `Sorting.CompareAntisymmetric` | script.js:254-280 | swapping the comparator's arguments negates its result |
| `Sorting.LeqTotal` | script.js:254-280 | any two tasks are ordered one way or the other |
| `Sorting.LeqTransitive` | script.js:254-280 | with one instant for the whole sort, the comparator's order is transitive |
| `Sorting.AdjacentSortedIsSorted` | script.js:254 | a sequence ordered at each neighbouring pair is ordered at every pair |
| `Sorting.SortedOrder` | script.js:255-279 | in a sorted list no completed task precedes an open one, no non-overdue open task precedes an overdue one, within equal completion and overdue flags no task off today's date precedes one on it, and within equal (completed, overdue, due-today) flags deadlines ascend |
| `Sorting.UpcomingOrderIsDeadlineOrder` | script.js:263-279 | for open, not yet overdue tasks and a calendar that never runs backwards, the order is plain deadline order |
| `Sorting.OverdueTodayBeforeOlderOverdue` | script.js:268-276 | a task overdue since earlier today sorts before one overdue since yesterday, although its deadline is later |
| `Sorting.SortTasks` | script.js:253-281 | the array is sorted in place: afterwards it is ordered by the comparator and is a permutation of its old contents |
| `Store.NewTask` | script.js:105-120 | no task exactly when the title is all white space or the deadline empty; otherwise an open task with the given id and creation time, trimmed title and description, the chosen subject or "Other" |
| `Store.PrependFreshId` | script.js:112-122 | prepending a task whose id is not in use keeps ids unique |
| `Store.FirstIndex` | script.js:132 | `find` yields the first position with the id, or nothing exactly when no task has it |
| `Store.Toggle` | script.js:131-134 | length and all other fields stay; the completed flag changes exactly at the first task with the id |
| `Store.ToggleUnknownId` | script.js:133 | toggling an unknown id leaves the store unchanged |
| `Store.ToggleTwice` | script.js:134 | toggling the same id twice restores the store |
| `Store.ToggleKeepsUniqueIds` | script.js:134 | toggling keeps ids unique |
| `Store.Remove` | script.js:142 | deletion keeps an order-preserving subsequence with no task of that id and every other task as often as before |
| `Store.RemoveUnknownId` | script.js:142 | deleting an unknown id leaves the store unchanged |
| `Store.RemoveOnlyTask` | script.js:142 | deleting the only task leaves the store empty |
| `Store.RemoveKeepsUniqueIds` | script.js:142 | deletion keeps ids unique, and with unique ids removes exactly one task when the id is present |
| `Store.InsertSorted` | script.js:206 | inserting into a strictly ascending list keeps it strictly ascending and adds exactly the new element |
| `Store.SubjectList` | script.js:206 | the subject list is strictly ascending (so duplicate-free) and holds exactly the subjects in use |
| `Store.AscendingUnique` | script.js:206 | two strictly ascending lists with the same elements are equal, so the list does not depend on set enumeration order |
| `Store.KeptSelection` | script.js:221-223 | the drop-down keeps its value exactly when it is still an option (or is "all"), and shows "all" otherwise |
| `Tracker.EmptyState` | script.js:287-301 | no message while tasks are shown; "No tasks yet" exactly when nothing is shown and the store is empty; "no matches" otherwise |
| `Tracker.NoMatchesNeedsActiveFilter` | script.js:295-300 | with default criteria the "no tasks match your filters" message never appears |
| `Tracker.StaleSubjectCriterion` | script.js:205-224 | after deleting the last task of the selected subject the drop-down shows "all", yet the criterion still hides a newly added task of another subject |
| `Tracker.Tracker.constructor` | script.js:37-44 | start-up: the saved list or an empty store, default criteria, options built from the tasks, "all" shown |
| `Tracker.Tracker.RefreshSubjects` | script.js:205-224 | the options become the subject list; the shown value is kept only while it is an option; tasks and criteria unchanged |
| `Tracker.Tracker.Submit` | script.js:102-128 | a valid form prepends the new task at index 0 (old tasks at 1..) and rebuilds the options; an invalid form changes nothing; a fresh id keeps ids unique |
| `Tracker.Tracker.ToggleComplete` | script.js:131-139 | the store becomes its toggle at the id; ids stay unique; criteria and drop-down unchanged |
| `Tracker.Tracker.Delete` | script.js:141-147 | the store loses exactly the tasks with the id; ids stay unique; options rebuilt |
| `Tracker.Tracker.SetSearch` | script.js:150-154 | only the search criterion changes |
| `Tracker.Tracker.SetStatus` | script.js:156-160 | only the status criterion changes |
| `Tracker.Tracker.SetSubject` | script.js:162-166 | the subject criterion and the shown drop-down value become the picked subject |
| `Tracker.Tracker.ResetFilters` | script.js:168-175 | the criteria return to their defaults and the drop-down shows "all" |
| `Tracker.Tracker.ResetButtonVisible` | script.js:177-183 | the reset button is visible exactly when the criteria differ from the defaults |
| `Tracker.Tracker.Render` | script.js:283-320 | the list drawn is a permutation of the filter result, sorted by the comparator at one instant, and comes with the matching empty-state message |

## Left out

- `JDBC.java` is not part of this model. It is a hard-coded MySQL client with no logic to verify.
- DOM work is not modelled: element lookups, `innerHTML` templating, `escapeHtml`, event-listener wiring, showing and hiding the form. `Tracker.Tracker.Render` returns the list it would draw.
- Persistence is not modelled: `saveTasks`, and the `localStorage` and JSON round trip of `loadTasks`. The constructor takes the saved list as a parameter. Malformed saved records are outside the typed model.
- Theme handling is not modelled (`initializeTheme`, `toggleTheme`, the `matchMedia` listener). It is display-only and shares no state with the tasks.
- `formatDeadline` is not modelled: it depends on the locale.
- `generateId` and the creation time are parameters of `Tracker.Tracker.Submit`, and the creation time is a number where the source keeps an ISO string. The source does not check ids for freshness, so uniqueness is stated only under a fresh id.
- Date parsing is not modelled: a deadline is already an instant. `Invalid Date` values, whose comparisons are all false, are not modelled.
- Time zones are not modelled: `dayOf` is abstract.
- `Deadline.DaysUntil`: exact integer ceiling, where the source uses floating-point division; the two agree for realistic timestamp differences.
- `Text.Lower`: maps only ASCII letters; full Unicode case mapping is left out.
- `Text.StrLess`: orders strings by code point, where JavaScript compares UTF-16 code units; the two differ only for characters outside the Basic Multilingual Plane.
- One instant stands for every `new Date()` of a render: `filterTasks` reads the clock once per task (script.js:235), `updateStats` once per call (script.js:187), `createTaskHTML` once per task (script.js:323) and the comparator once per comparison (script.js:260). `Tracker.Tracker.Render` uses one `clock` for both the filter and the sort, so a deadline passing mid-render is not modelled.
- `Sorting.SortTasks`: does not state stability (ECMAScript sorts are stable); it promises only an ordered permutation. It takes one instant for all comparisons.
- Tasks are values, not shared objects. The in-place flip of a found task object is modelled as replacing that element of the sequence.
