# Task manager core, modelled in Dafny

This project models the logic of a React Native task manager in Dafny and proves
properties of it. It has two screens.

**The full task manager** (`TaskManager/App.js`) keeps a list of tasks and a create/edit
form. A task has a title, a description, a status (To Do, In Progress, Done), a priority,
a category, an optional due date, a repeat setting, an estimated time and a
reminders switch.

- Every command that changes the list saves it. Saving stores the list and reschedules
  all reminders: one fires an hour before the due time of each task that wants one.
- Creating a task whose repeat setting is not None projects a successor task. Its due
  date is a day, a week or a month later.
- The list view filters by a search text, status, category and priority. It flags
  overdue tasks and sorts by creation time, priority or due date.
- The calendar view marks the day each task is due.

**The simple screen** (`screens/HomeScreen.js`) keeps a list of tasks with a completed
flag and an append-only history log. Each completion, undo and deletion adds a snapshot
to the log. The history view (`screens/HistoryScreen.js`) shows a copy of the log
sorted newest first.

## Modules

| module | what it models |
|---|---|
| `Wrappers` | `Option` |
| `Text` | ECMAScript `trim`, ASCII lower-casing and `includes` |
| `Lists` | `map`, `filter` and `find` over sequences |
| `Ranking` | the stable comparator sort, as a stable insertion sort by a lexicographic rank |
| `Calendar` | UTC timestamps in milliseconds, proleptic Gregorian dates, and date-fns `addDays`, `addWeeks`, `addMonths` and the `yyyy-MM-dd` day key |
| `Tasks` | the task record and the list transforms behind toggle, edit and delete |
| `TaskQuery` | the list view's filter, overdue flag and sort |
| `Reminders` | the reminder-scheduling rule |
| `Recurrence` | the successor of a repeating task |
| `CalendarMarks` | the calendar day markers |
| `App` | class `TaskManager`: the state and commands of `App.js` |
| `Home` | class `HomeScreen`: the state and commands of `HomeScreen.js` |
| `History` | the history view's sort |

**Classes and values.** The two screens change their state through commands. Each is
modelled as a class whose fields are that state, with methods that reassign them. The
list transforms, the query and the date arithmetic are pure and are modelled as
functions. Lemmas state what these functions promise.

**Sort.** The comparator sort is `Array.prototype.sort`, which ECMAScript requires to be
stable. Each comparator is shown to agree with a rank (`TaskQuery.Compare`). The
sort is modelled as the stable insertion sort by that rank. `Ranking.SortUnique` shows
that any sorted, stable arrangement is that one result, so the model does not depend on
which stable algorithm the engine uses.

**Where the code is followed.** A reminder whose fire time is already past is still
scheduled at that past time; the code does not clamp it to `now`
(`Reminders.ReminderMayBeInThePast`).

## Model

| member | source | states |
|---|---|---|
| `App.TaskManager.constructor` | TaskManager/App.js:60-82 | The app starts with no tasks and no reminders. The form holds the defaults: empty texts, To Do, low priority, work, no due date, no repeat, reminders on. No edit is in progress, the modal is closed, and the filters are 'all' with newest-first sorting. |
| `App.TaskManager.ScheduleNotificationsForTasks` | TaskManager/App.js:119-139 | Every earlier reminder is cancelled. Afterwards exactly the reminders of `ReminderIntents(list, now)` are scheduled, in list order. |
| `App.TaskManager.SaveTasks` | TaskManager/App.js:109-117 | The new list becomes the task list and the reminders are rescheduled for it. Nothing else changes. |
| `App.TaskManager.LoadTasks` | TaskManager/App.js:96-107 | A stored list replaces the task list and reschedules the reminders. When nothing is stored, the state is unchanged. |
| `App.TaskManager.CreateTask` | TaskManager/App.js:141-164 | A blank or whitespace-only title changes nothing. Otherwise exactly one task, built from the form, is appended; the list is saved, the form reset and the modal closed. A repeating task also yields its projected successor; a non-repeating one yields none. |
| `App.TaskManager.UpdateTask` | TaskManager/App.js:166-182 | A blank title changes nothing. Otherwise every task with the edited id takes the form's fields and `updatedAt = now`; the list is saved, the form reset, the edit ended and the modal closed. |
| `App.TaskManager.DeleteTask` | TaskManager/App.js:193-196 | The confirmed delete drops every task with the id and saves the list. Form, edit, modal and query are unchanged. |
| `App.TaskManager.ToggleTaskStatus` | TaskManager/App.js:202-218 | The tasks with the id advance one status and the list is saved. Every task keeps its id in its place. |
| `App.TaskManager.OpenEditModal` | TaskManager/App.js:264-278 | The task becomes the one being edited, the form takes its fields and the modal opens. The list and the reminders are unchanged. |
| `App.TaskManager.GetCalendarMarkedDates` | TaskManager/App.js:315-329 | The loop builds exactly `Marks(tasks)`; `CalendarMarks.MarksKeys` and `CalendarMarks.MarksLastWins` characterise that map. |
| `App.TaskManager.GetFilteredAndSortedTasks` | TaskManager/App.js:280-313 | A task is listed exactly when some task of the list passes all four filters and it is that task with its overdue flag recomputed. The list is in rank order for the chosen sort key. |
| `Tasks.NewTask` | TaskManager/App.js:147-154 | A new task has the given id and every form field. Its time spent is 0, it is not overdue, and it is created and updated at `now`. |
| `Tasks.NextStatus` | TaskManager/App.js:205-212 | A toggle always changes the status. |
| `Tasks.NextStatusCycle` | TaskManager/App.js:205-212 | Three toggles return to the starting status, after visiting all three statuses. |
| `Tasks.StatusToggled` | TaskManager/App.js:203-216 | Same length. Tasks with another id are unchanged. A task with the id gets the next status and `updatedAt = now`, and no other field changes. |
| `Tasks.FormApplied` | TaskManager/App.js:172-176 | Same length. Tasks with another id are unchanged. A task with the id takes every form field and `updatedAt = now`, and keeps its id, creation time, time spent and overdue flag. |
| `Tasks.Removed` | TaskManager/App.js:194 | The list does not grow. A task remains exactly when it was in the list and has another id. |
| `Tasks.RemovedCount` | TaskManager/App.js:194 | After a delete, no task with the id remains. Every other task occurs as often as before. |
| `Tasks.RemovedAppend` | TaskManager/App.js:194 | Deletion distributes over concatenation, so the remaining tasks keep their order. |
| `Tasks.RemovedAbsent` | TaskManager/App.js:194 | Deleting an id that no task has leaves the list unchanged. |
| `Tasks.TransformsKeepIds` | TaskManager/App.js:172-216 | Toggling and editing keep every task's id in its place. |
| `Tasks.RemovedKeepsUnique` | TaskManager/App.js:194 | Deletion keeps the ids distinct. |
| `Tasks.AppendKeepsUnique` | TaskManager/App.js:147-156 | Appending a task whose id is unused keeps the ids distinct. |
| `Tasks.TransformsKeepTimesOrdered` | TaskManager/App.js:172-216 | When no task was updated before it was created and none was created after `now`, toggling, editing and deleting keep every task's update time at or after its creation time. |
| `Tasks.AppendNewKeepsTimesOrdered` | TaskManager/App.js:147-156 | Appending a new task keeps every task's update time at or after its creation time. |
| `Text.TrimStart` | TaskManager/App.js:142 | The result is a suffix of the input. It does not start with whitespace, and everything removed is whitespace. |
| `Text.TrimEnd` | TaskManager/App.js:142 | The result is a prefix of the input. It does not end with whitespace, and everything removed is whitespace. |
| `Text.BlankIffAllWhitespace` | TaskManager/App.js:142 | A title is blank exactly when every character is ECMAScript whitespace. |
| `Text.BlankIffTrimmedEmpty` | TaskManager/App.js:142 | The blank test is the source's test that the trimmed title is empty. |
| `Text.Lower` | TaskManager/App.js:282-283 | Lower-casing keeps the length and maps each character on its own. |
| `Text.IncludesIff` | TaskManager/App.js:282-283 | `includes` holds exactly when the pattern occurs at some index. |
| `TaskQuery.MatchesSearchIff` | TaskManager/App.js:282-283 | A task matches the search exactly when the lower-cased text occurs in its lower-cased title or in its non-empty lower-cased description. |
| `TaskQuery.Filtered` | TaskManager/App.js:281-289 | The filter does not grow the list. A task passes exactly when it is in the list and matches the search, status, category and priority. |
| `TaskQuery.Annotated` | TaskManager/App.js:292-295 | Same length. Each task's overdue flag is recomputed against `now` and no other field changes. |
| `TaskQuery.Compare` | TaskManager/App.js:298-310 | Each comparator returns zero exactly on tasks of equal rank, and a non-positive value exactly when the first task's rank is not above the second's. |
| `TaskQuery.FilteredAndSorted` | TaskManager/App.js:280-313 | The visible list is a permutation of the filtered list with the overdue flag recomputed. |
| `TaskQuery.EmptySearchMatches` | TaskManager/App.js:282 | An empty search text matches every task. |
| `TaskQuery.FilteredAndSortedMembers` | TaskManager/App.js:280-313 | A task is visible exactly when some task of the list passes all four tests and it is that task with its overdue flag recomputed. |
| `TaskQuery.OverdueFlag` | TaskManager/App.js:292-295 | A visible task is flagged overdue exactly when its due date is before `now` and it is not Done. |
| `TaskQuery.CompareAntisymmetric` | TaskManager/App.js:298-310 | Each comparator is antisymmetric: swapping the tasks negates the result. |
| `TaskQuery.PriorityOrder` | TaskManager/App.js:300-301 | Sorted by priority, the weights never increase along the list. |
| `TaskQuery.DueDateOrder` | TaskManager/App.js:302-306 | Sorted by due date, the dated tasks come first in non-decreasing due date, then the undated ones. |
| `TaskQuery.CreatedOrder` | TaskManager/App.js:307-308 | Sorted by creation, the newest comes first. |
| `TaskQuery.SortIsTheStableSort` | TaskManager/App.js:298-310 | The sort keeps tied tasks in filtered order. Any sorted list with that property equals the visible list. |
| `Ranking.SortPermutation` | TaskManager/App.js:298 | Sorting is a permutation. |
| `Ranking.SortSorted` | TaskManager/App.js:298 | The sorted list is ordered by rank. |
| `Ranking.SortStable` | TaskManager/App.js:298 | Elements of equal rank keep their relative order. |
| `Ranking.SortUnique` | TaskManager/App.js:298 | Any rank-ordered arrangement that keeps ties in order equals the sort's result. |
| `Reminders.WantsReminder` | TaskManager/App.js:123-127 | A task that wants a reminder has a due date, has reminders on and is not Done, and its reminder fires less than an hour before `now` or later. |
| `Reminders.ReminderFor` | TaskManager/App.js:128-134 | The reminder carries the task's id and fires exactly one hour before its due time. |
| `Reminders.ReminderIntents` | TaskManager/App.js:122-138 | No more reminders are scheduled than there are tasks. `Reminders.ReminderIntentsAppend` gives the per-task count: each task adds at most its own reminder. |
| `Reminders.ReminderIntentsAppend` | TaskManager/App.js:122-138 | Scheduling walks the list in order: one more task at the end adds at most its own reminder, at the end. |
| `Reminders.ReminderIntentsIff` | TaskManager/App.js:123-135 | A reminder is scheduled exactly when some task has a due date, has reminders on, is not Done and is due after `now`, and the reminder is that task's. |
| `Reminders.ReminderTiming` | TaskManager/App.js:127-134 | Every reminder belongs to a task of the list and fires exactly one hour before that task's due time. |
| `Reminders.ReminderMayBeInThePast` | TaskManager/App.js:134 | A task due in half an hour gets a reminder half an hour in the past; the fire time is not clamped. |
| `Recurrence.Projected` | TaskManager/App.js:220-242 | The successor has the fresh id, To Do and `createdAt = now`. It is due one period after the original due date, or after `now` when there is none. Every other field is copied. |
| `Recurrence.AdvanceDue` | TaskManager/App.js:224-234 | The due time stays put exactly when the task does not repeat. A repeating task's next due time is strictly later, and every setting keeps the time of day. |
| `Recurrence.AdvanceDates` | TaskManager/App.js:224-234 | Daily moves the due day by 1 and weekly by 7. Monthly moves it to the same day of the next month, clamped to that month's length. All three keep the time of day. |
| `Recurrence.MonthlyMidMonth` | TaskManager/App.js:231-232 | 2025-01-15 repeats monthly on 2025-02-15, at the same time of day. |
| `Recurrence.MonthEndClamps` | TaskManager/App.js:232 | A month after January 31 is February 28 in a common year and February 29 in a leap year. A month after December 31 is January 31. |
| `Recurrence.SuccessorTimes` | TaskManager/App.js:236-242 | The successor copies the original's update time and is created at `now`, so its update time is at or after its creation time exactly when the original was updated no later than `now`. |
| `Recurrence.SuccessorUpdatedBeforeCreated` | TaskManager/App.js:150-151 | If the clock advances between creating a repeating task and projecting its successor, the successor's update time is before its creation time. |
| `Calendar.AddDays` | TaskManager/App.js:226 | `addDays` moves the day number by `n` and keeps the time of day. |
| `Calendar.AddWeeks` | TaskManager/App.js:229 | `addWeeks` moves the day number by `7n` and keeps the time of day. |
| `Calendar.AddDaysDate` | TaskManager/App.js:226 | `addDays` moves the calendar day by `n` and keeps the time of day. |
| `Calendar.MonthsLater` | TaskManager/App.js:232 | The date `n` months later is a valid date. |
| `Calendar.AddMonths` | TaskManager/App.js:232 | The calendar date of `addMonths` is the clamped date `n` months later, at the same time of day. |
| `Calendar.AddMonthLater` | TaskManager/App.js:232 | `addMonths` by one month moves a timestamp strictly forward. |
| `Calendar.DateOf` | TaskManager/App.js:319 | A timestamp's day key is a valid date whose day number is the timestamp's day. |
| `Calendar.DateOfDay` | TaskManager/App.js:319 | The day key of a day number is a valid date with that day number. |
| `Calendar.DateOfDayNumber` | TaskManager/App.js:319 | Day numbers and day keys are inverse, so distinct days get distinct keys. |
| `Calendar.DateAndTimeOfDay` | TaskManager/App.js:319 | A timestamp is its day's midnight plus a time of day in `[0, 24h)`. |
| `CalendarMarks.MarkerFor` | TaskManager/App.js:320-325 | A marker is marked with its category's colour. Its selected colour is the overdue colour exactly when the task's overdue flag is set, and the category colour otherwise. |
| `CalendarMarks.Marks` | TaskManager/App.js:316-327 | Every marker in the map is marked. |
| `CalendarMarks.MarksKeys` | TaskManager/App.js:317-327 | A day is marked exactly when some task is due on it. |
| `CalendarMarks.MarksLastWins` | TaskManager/App.js:317-327 | A day's marker is that of the last task due on it: its category colour, and the overdue colour when its stored overdue flag is set. |
| `Home.HomeScreen.constructor` | screens/HomeScreen.js:16-19 | The screen starts with empty input, no tasks, an empty history and no due date. |
| `Home.HomeScreen.HandleAddTask` | screens/HomeScreen.js:23-39 | Blank input changes nothing. Otherwise one uncompleted task with the input text and the picked due date is appended, and both are cleared. The history is untouched. |
| `Home.HomeScreen.ToggleTaskComplete` | screens/HomeScreen.js:42-60 | `completed` flips on every task with the id and the rest of the list is unchanged. The history grows only at its end, by one pre-flip snapshot per such task. |
| `Home.HomeScreen.DeleteTask` | screens/HomeScreen.js:62-74 | Every task with the id is removed. When one existed, a Deleted snapshot of the first is appended to the history. |
| `Home.WithoutId` | screens/HomeScreen.js:73 | The list does not grow. A task remains exactly when it was in the list and has another id. |
| `Home.ToggledItems` | screens/HomeScreen.js:43-58 | Same length. Exactly the tasks with the id have their `completed` flag flipped. |
| `Home.ToggleLog` | screens/HomeScreen.js:46-53 | A toggle logs no more entries than there are tasks. `Home.ToggleLogAppend` gives the per-task count: each task adds at most its own entry. |
| `Home.ToggleLogAppend` | screens/HomeScreen.js:43-53 | The toggle log follows list order: one more task at the end adds at most its own entry, at the end. |
| `Home.ToggleLogAbsent` | screens/HomeScreen.js:42-60 | Toggling an id no task has logs nothing. |
| `Home.ToggleLogPresent` | screens/HomeScreen.js:42-60 | With distinct ids, toggling a present id logs exactly one entry: the task before the flip, marked Completed exactly when the flip completed it. |
| `Home.DeletePresent` | screens/HomeScreen.js:63 | The snapshot logged is the first task with the id. |
| `Home.DeleteAbsent` | screens/HomeScreen.js:62-74 | Deleting an absent id changes neither the list nor the log. |
| `History.LoggedAt` | screens/HistoryScreen.js:9-11 | The entries logged at one time are exactly the log's entries with that action time. |
| `History.SortedHistory` | screens/HistoryScreen.js:9-11 | The sorted copy is a permutation of the log. |
| `History.SortedHistoryDescending` | screens/HistoryScreen.js:9-11 | Action times never increase along the sorted copy. |
| `History.SortedHistoryStable` | screens/HistoryScreen.js:9-11 | Entries with the same action time keep their log order. |
| `History.SortedHistoryUnique` | screens/HistoryScreen.js:9-11 | Any newest-first arrangement of the log that keeps ties in log order is the sorted copy. |

## Left out

- The user interface is not modelled: rendering, styles, navigation, the date picker, the view switch, and the filter-panel and sort-cycle buttons (`App.js` 637-660). Their effect on the query is one assignment to `query`.
- AsyncStorage is not modelled. `LoadTasks` takes the stored list as a parameter (`None` when nothing is stored). JSON encoding, storage failures and their logging are left out, and the model has no failure path. In the source (`App.js` 110-116), a failed write skips both `setTasks` and the rescheduling, so the list in memory and the reminders stay as they were. The callers do not wait for the write: they still reset the form, end the edit and close the modal (`App.js` 158-159, 179-181). A failed save therefore loses the task just typed, or the edit just made.
- Notification permissions and delivery are external services. The model records the reminders it would schedule, as (task id, fire time) intents.
- Every command is modelled as one indivisible step. In the source, `saveTasks` updates `tasks` only after the storage write completes. A second command issued before that builds its list from the old `tasks` value, so after two quick toggles (`App.js` 203) only the second one's list is kept. This interleaving is left out, like the stale `tasks` captured by the successor's timer.
- Ids from `uuid.v4()` and `Date.now()`, and the current time, are parameters. One `now` stands for every `new Date()` read within one command; the source reads the clock per task.
- Time zones and daylight saving time are not modelled: dates are UTC days. date-fns `addMonths` is modelled from its documented end-of-month clamping. ISO strings and `toLocaleString` texts are integer timestamps.
- `toLowerCase` is modelled on ASCII letters only. Unicode case mapping is not modelled.
- Confirmation dialogs and error alerts are not modelled. The alert-and-return on a blank title is the "changes nothing" case, and deletion is modelled as the confirmed path.
- App.TaskManager.CreateTask: returns the successor task but does not model the one-second `setTimeout` that inserts it. That callback saves `[...tasks, successor]` using the `tasks` captured when `createTask` ran, so the inserted list would not contain the task just created. Timers and stale closures are left out.
- Missing or null fields in stored tasks are not modelled (`openEditModal`'s `||` defaults, a task without a priority in the priority sort). Every task has every field, so `OpenEditModal` copies the task's form.
- Recurrence.Projected: the model reads one `now` per command, so a successor's update time equals its creation time. In the source the successor copies the update time read at `App.js` 151 but reads the clock again for its creation time at `App.js` 241. When the clock advances between the two reads, the successor's update time is before its creation time (`Recurrence.SuccessorUpdatedBeforeCreated`).
- NaN is not modelled: comparator results are computed on integer timestamps.
- The overdue styling in `renderTaskItem` is display only. The stored `isOverdue` flag used by the calendar markers is modelled.
- `components/TaskItem.js` and `TaskManager/demo-setup.js` are not part of this model.
