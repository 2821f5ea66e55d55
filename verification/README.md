# TaskWise task list, modelled in Dafny

TaskWise is a single-page task manager: a React component (`Home` in `src/app/page.tsx`)
keeps a list of tasks, saves it to the browser's local storage and reads it back on start.
Each task has an id, a title, an optional description and due date, a category, a
completion flag, a recurrence (none, daily, weekly, monthly) and, for recurring tasks, the
instant it was last completed. This project models the logic of that component:

- the load effect: default values for missing stored fields, the recurrence reset, and the
  due-date sort (`seqs.dfy`, `calendar.dfy`, `tasks.dfy`, `reset.dfy`, `order.dfy`, `page.dfy`);
- the handlers that replace the `tasks` state: create or edit from the dialog, toggle
  completion and delete. These are the class `Page.TaskStore`, and the lists they compute
  are pure functions in `tasklists.dfy`;
- the read-only views: the tasks due on the selected calendar date, the daily, weekly and
  monthly sections sorted by title, the non-recurring tasks grouped by category, and the
  due dates that mark the calendar (`projections.dfy`).

Instants are local calendar fields `Instant(year, month, day, msOfDay)`. Day numbers follow
the proleptic Gregorian calendar, with day 0 = 1970-01-01. `getTime()` is a local
millisecond count. The date-fns anchors `startOfDay`, `startOfWeek` (weeks start on
Monday) and `startOfMonth` are defined by their meaning, because their code is not part of
this model. `Array.prototype.sort` is modelled as a stable sort (`Seqs.SortBy`, an
insertion sort). Its order and stability are proved for any total preorder.

## Model

| member | source | states |
|---|---|---|
| Seqs.Filter | src/app/page.tsx:276 | the result holds exactly the elements of the input that satisfy the predicate, and is no longer than the input |
| Seqs.FilterConcat | src/app/page.tsx:276 | filtering a concatenation filters each part: the survivors keep their order |
| Seqs.FilterCount | src/app/page.tsx:276 | a kept element occurs as often as in the input, a dropped one never |
| Seqs.FilterKeepsAll | src/app/page.tsx:276 | when the predicate holds everywhere, the filter returns its input |
| Seqs.FilterDropsAll | src/app/page.tsx:284 | when the predicate fails everywhere, the filter returns nothing |
| Seqs.FilterPairwise | src/app/page.tsx:276 | a relation that holds between every ordered pair of the input still holds after filtering |
| Seqs.SortBy | src/app/page.tsx:173 | the sort returns a permutation of its input |
| Seqs.Insert | src/app/page.tsx:173 | one insertion step adds exactly the inserted element |
| Seqs.InsertSorted | src/app/page.tsx:173 | inserting into a list ordered by a total preorder keeps it ordered |
| Seqs.SortBySorted | src/app/page.tsx:173 | with a total preorder for the comparator, the sort's output is ordered |
| Seqs.InsertStable | src/app/page.tsx:173 | an insertion step keeps every class of equivalent elements in its input order |
| Seqs.SortByStable | src/app/page.tsx:173 | the sort is stable: each class of elements the comparator sees as equal keeps its input order |
| Seqs.SortBySortedIsIdentity | src/app/page.tsx:173 | a list already in order comes back unchanged |
| Seqs.SortByPairwise | src/app/page.tsx:244 | a symmetric relation between every pair of the input holds between every pair of the output |
| Calendar.DaysInMonth | src/app/page.tsx:161 | every month has 28 to 31 days |
| Calendar.Weekday | src/app/page.tsx:153 | the weekday of a day number is one of seven values |
| Calendar.WeekdayIsMondayFirst | src/app/page.tsx:153 | the numbering makes 0 Monday: 1970-01-01 is a Thursday (3), 2024-03-11 a Monday (0), and each day follows the previous one, Sunday (6) wrapping to Monday |
| Calendar.WeekStartDay | src/app/page.tsx:153 | the week of a day starts on the Monday that is on or at most six days before it |
| Calendar.StartOfDay | src/app/page.tsx:152 | start of day is a midnight (a whole number of days) on the instant's own day: at or before the instant, less than one day before it |
| Calendar.StartOfWeek | src/app/page.tsx:153 | start of week is a Monday midnight at or before start of day, less than a week before it |
| Calendar.StartOfMonth | src/app/page.tsx:154 | start of month is the midnight of day 1 of the instant's month |
| Calendar.DayNumberOrder | src/app/page.tsx:159-161 | for valid dates, day numbers are ordered as the calendar dates are, and equal exactly on the same date |
| Calendar.DaysBeforeYearMonotone | src/app/page.tsx:159-161 | a later year starts after every day of an earlier year |
| Calendar.DateBounds | src/app/page.tsx:159-161 | the day number of a valid date falls within its month and its year |
| Tasks.TrimStart | src/app/page.tsx:208 | drops exactly the leading white space: what remains is a suffix whose first character is not white space |
| Tasks.TrimEnd | src/app/page.tsx:208 | drops exactly the trailing white space: what remains is a prefix whose last character is not white space |
| Tasks.Trim | src/app/page.tsx:208 | trimming drops white space only, from both ends, and leaves a slice that neither starts nor ends with white space |
| Tasks.IsBlank | src/app/page.tsx:208 | a title is refused as blank exactly when every character of it is white space |
| Tasks.NewTask | src/app/page.tsx:234-243 | a created task has the form's fields, the fresh id, is pending and has no completion date |
| Tasks.Normalize | src/app/page.tsx:135-144 | id, title, description, due date and completion date are copied; a missing or empty category becomes 'Work', any other is kept; the task is completed exactly when the record says `true`; a missing recurrence becomes 'none' |
| Tasks.ToStored | src/app/page.tsx:179 | the written record carries category, completion flag and recurrence, and loads back as the same task when the category is not empty |
| Tasks.StoredRoundTrip | src/app/page.tsx:135-144 | saving and loading a task returns it exactly when its category is not empty; an empty one comes back as 'Work' |
| Reset.ShouldReset | src/app/page.tsx:157-170 | only a completed recurring task with a completion date can be due for a reset |
| Reset.ResetTask | src/app/page.tsx:156-171 | the task stays completed exactly when it was and is not due for a reset; no other field changes |
| Reset.ResetPass | src/app/page.tsx:156-172 | the pass keeps length and order and decides each task on its own |
| Reset.ResetPassScope | src/app/page.tsx:156-172 | the pass only turns completed flags to false, and leaves non-recurring and pending tasks untouched |
| Reset.ResetPassSettles | src/app/page.tsx:156-172 | after the pass no task is due for a reset |
| Reset.ResetPassIdempotent | src/app/page.tsx:156-172 | running the pass twice with the same instant is the same as running it once |
| Reset.DailyResetMeaning | src/app/page.tsx:163 | a completed daily task resets exactly when it was completed on an earlier calendar date |
| Reset.WeeklyResetMeaning | src/app/page.tsx:165 | a completed weekly task resets exactly when now is on or after the Monday after the week of completion |
| Reset.MonthlyResetMeaning | src/app/page.tsx:167 | a completed monthly task resets exactly when it was completed in an earlier calendar month |
| Reset.ResetFollowsCompletion | src/app/page.tsx:156-171 | a reset happens only when the completion instant is strictly before now |
| Reset.NoResetOnSameDate | src/app/page.tsx:156-171 | a task completed on today's date is never reset |
| Reset.DailyExamples | src/app/page.tsx:163 | completed at 23:00 and checked at 00:30 the next day resets; checked at 23:30 the same day it does not |
| Reset.WeeklyExamples | src/app/page.tsx:165 | completed Tuesday and checked the next Monday resets; checked Friday of the same week it does not |
| Reset.WeeklySundayToMonday | src/app/page.tsx:160-165 | weeks start on Monday: completed on a Sunday and checked the next day resets; checked later that Sunday it does not |
| TaskOrder.CompareDue | src/app/page.tsx:173 | the comparator is 0 exactly for equal due keys, puts a dated task before an undated one, and orders two dated tasks by their instants |
| TaskOrder.CompareDueConsistent | src/app/page.tsx:173 | the comparator is antisymmetric, returns 0 exactly for equal due keys, and its "not after" relation is a total preorder |
| TaskOrder.SortByDue | src/app/page.tsx:173 | the sorted list is a permutation of its input |
| TaskOrder.SortedByDueLe | src/app/page.tsx:173 | a list is ordered by the comparator exactly when dated tasks come first in non-decreasing due time |
| TaskOrder.SortByDueSpec | src/app/page.tsx:173 | the sort gives a permutation with dated tasks first in due order, and tasks with the same due key keep their relative order |
| TaskOrder.SameDueKeyClass | src/app/page.tsx:173 | the tasks the sort keeps together are exactly those with the same due instant, or both undated |
| TaskOrder.SortByDueOfSorted | src/app/page.tsx:173 | sorting a list already in due order changes nothing |
| TaskLists.Edited | src/app/page.tsx:221-228 | the edited task keeps its id, completion flag and completion date and takes the form's title, description, due date, category and recurrence |
| TaskLists.EditList | src/app/page.tsx:217-229 | the task with the id takes the form's fields and keeps its id, completion flag and completion date; every other task is unchanged; the length is kept |
| TaskLists.EditAbsentIsNoop | src/app/page.tsx:219 | editing an absent id changes nothing |
| TaskLists.EditCanLeaveStampOnNonRecurring | src/app/page.tsx:221-228 | a completed weekly task edited to recurrence 'none' keeps its completion date |
| TaskLists.Toggled | src/app/page.tsx:257-264 | completion flips; the completion date becomes now exactly when the task becomes completed and is recurring; nothing else changes |
| TaskLists.ToggleList | src/app/page.tsx:255-268 | only tasks with the id are toggled; order and length are kept |
| TaskLists.ToggleAbsentIsNoop | src/app/page.tsx:256 | toggling an absent id changes nothing |
| TaskLists.ToggleTwice | src/app/page.tsx:252-268 | toggling twice restores every flag, and restores a non-recurring task entirely |
| TaskLists.ToggleKeepsStampsOnRecurring | src/app/page.tsx:261-263 | toggling never stamps a non-recurring task |
| TaskLists.DeleteList | src/app/page.tsx:276 | the result holds exactly the tasks without the id, each as often as before |
| TaskLists.DeleteConcat | src/app/page.tsx:276 | deletion keeps the survivors in their original order |
| TaskLists.DeleteAbsentAndIdempotent | src/app/page.tsx:276 | deleting an absent id changes nothing, and deleting twice equals deleting once |
| TaskLists.UniqueIdsPairwise | src/app/page.tsx:72 | distinct ids means every pair of tasks has different ids |
| TaskLists.DeleteKeepsUniqueIds | src/app/page.tsx:276 | deletion keeps ids unique |
| TaskLists.SortKeepsUniqueIds | src/app/page.tsx:230 | the due-date sort keeps ids unique |
| Projections.TasksForDate | src/app/page.tsx:283-290 | the result holds exactly the tasks due on the selected calendar date |
| Projections.TasksForDateSpec | src/app/page.tsx:283-290 | each matching task appears as often as in the list, in list order; no selected date gives nothing |
| Projections.SameDateIsSameDay | src/app/page.tsx:286-288 | the same year, month and day means the same start of day |
| Projections.DateFilterExample | src/app/page.tsx:283-290 | a task due at 23:59 on the selected date is shown; one due at 00:01 the next day is not |
| Projections.Bucket | src/app/page.tsx:292-294 | a section holds exactly the tasks with its recurrence |
| Projections.OtherTasks | src/app/page.tsx:295 | the 'none' section holds exactly the non-recurring tasks |
| Projections.RecurringSection | src/app/page.tsx:292-294 | the sorted section is a permutation of its bucket |
| Projections.RecurringSectionSpec | src/app/page.tsx:292-294 | a section holds exactly the tasks of its recurrence, ordered by title |
| Projections.BucketsPartition | src/app/page.tsx:292-295 | the four buckets together hold every task exactly once |
| Projections.SectionsPartition | src/app/page.tsx:292-295 | the three sorted sections and the 'none' bucket together hold every task exactly once, each section only its own recurrence |
| Projections.CategoryKey | src/app/page.tsx:298 | the grouping key is never empty, and is the task's category when it has one |
| Projections.AddToGroups | src/app/page.tsx:299-303 | one reduce step keeps every existing key in its place, and a task of a new key adds its group at the end |
| Projections.AddToExistingKey | src/app/page.tsx:299-302 | when the key has a group, the step pushes the task onto it and leaves every other group unchanged |
| Projections.AddToExistingGroup | src/app/page.tsx:302 | pushing onto an existing group keeps the grouping invariant |
| Projections.AddNewGroup | src/app/page.tsx:299-302 | creating a new group keeps the grouping invariant |
| Projections.AddToGroupsSpec | src/app/page.tsx:299-303 | one reduce step keeps the grouping invariant |
| Projections.GroupFrom | src/app/page.tsx:297-304 | the reduce never drops or reorders a key already in the record |
| Projections.GroupFromSpec | src/app/page.tsx:297-304 | the reduce over the rest of the tasks keeps the grouping invariant |
| Projections.CategorizedTasks | src/app/page.tsx:297-304 | the groups have distinct keys and are never empty; each holds exactly the non-recurring tasks of its key in list order; every non-recurring task has a group |
| Projections.CategorizedTasksSpec | src/app/page.tsx:295-297 | only non-recurring tasks are grouped |
| Projections.DueDates | src/app/page.tsx:306-308 | the markers are the due dates of the dated tasks, one per task, in list order |
| Projections.DueDatesMembership | src/app/page.tsx:306-308 | an instant is a marker exactly when some task is due at it |
| Projections.DueDatesOfSortedList | src/app/page.tsx:306-308 | for a list in due order, the markers are in non-decreasing time order |
| Projections.DueDatesKeepDuplicates | src/app/page.tsx:306-308 | two tasks due at the same instant give two markers |
| Page.LoadedTasks | src/app/page.tsx:131-149 | nothing stored gives an empty list; otherwise each stored record is normalised in order |
| Page.Saved | src/app/page.tsx:179 | record i is task i's stored form, and loads back as task i when its category is not empty |
| Page.LoadList | src/app/page.tsx:131-173 | the loaded list is a permutation of the reset records, in due order, with nothing left to reset and no empty category |
| Page.ReloadRoundTrip | src/app/page.tsx:129-179 | saving a list in due order with non-empty categories, then loading it when nothing is due for a reset, gives the same list |
| Page.TaskStore.constructor | src/app/page.tsx:115 | the list starts empty |
| Page.TaskStore.Load | src/app/page.tsx:129-174 | the list is the normalised, reset and sorted stored list: in due order, nothing left to reset, every category non-empty |
| Page.TaskStore.Submit | src/app/page.tsx:207-250 | refused exactly for a blank title, and then nothing changes; otherwise the edited list, or the old list plus the new task, is sorted by due date, and unique ids are kept when the fresh id is new |
| Page.TaskStore.ToggleCompletion | src/app/page.tsx:252-268 | the list becomes the toggled list without re-sorting; due order, unique ids and stamps only on recurring tasks are kept |
| Page.TaskStore.DeleteTask | src/app/page.tsx:275-276 | the list loses exactly the tasks with the id; due order and unique ids are kept |

## Left out

- Browser storage and JSON: reading and writing `localStorage` and `JSON.parse` and `JSON.stringify`. A missing or unparsable stored value is the `None` case of `Page.LoadedTasks`. Stored dates are taken as already-converted instants. A record whose `id` or `title` is missing is not modelled, and neither is a field of the wrong JSON type.
- Invalid dates (`new Date` of a malformed string, whose time is NaN) are not modelled. Calendar facts that need a well-formed date require `ValidInstant`.
- Time zones and daylight-saving time: instants are local calendar fields, and every day has 86 400 000 ms.
- The clock and id generation (`new Date()`, `String(Date.now() + Math.random())`) become the parameters `now` and `freshId`. Unique ids are proved to be preserved only when `freshId` does not already occur.
- `localeCompare` is the parameter `titleLe`. Order within a recurring section is proved for any total preorder.
- `Array.prototype.sort` works in place on a freshly built array. It is modelled as a pure stable sort, which is observably the same here because the array is never shared.
- The React machinery (`useState`, `useEffect`, `useMemo`, the `mounted` flag) becomes explicit method calls and pure functions. The dialog state (`editingTask`, form fields, `resetForm`, `openEditDialog`) becomes the `Form` value and the optional id of the task being edited.
- Toasts, rendering, dialogs, the sidebar, the calendar widget and its past-date rule are UI only.
- Projections.CategorizedTasks: the record is modelled as a list of groups in order of first appearance. Reading a group by key is not modelled. The iteration order of a record with integer-like keys is not modelled either. A category that names a member of `Object.prototype` (`toString`, `constructor`, `__proto__`, ...) makes the source's reduce find a truthy non-array under that key and throw when it pushes; the model groups such a category like any other.
- Edit keeps `lastCompletedDate` when a recurring task is edited to recurrence 'none' (`TaskLists.EditCanLeaveStampOnNonRecurring`). So "only recurring tasks carry a completion date" is preserved by toggle and delete but not by edit. The reset pass ignores such a stamp.
- Editing, toggling or deleting an id that is not in the list changes nothing; editing still re-sorts.
- The reset runs only at load; a task completed and left open across a period boundary stays completed until the next load.
