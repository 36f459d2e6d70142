# Task board: a Dafny model

This project models the state manager of the task-board component in
`src/app/components/dashboard/task-board/task-board.ts`. The component holds
two lists. The full list of tasks is authoritative. The filtered view is
derived from it. The component also holds the current period (`''`,
`today`, `week`, `month`, or any other string from the route) and the
title shown above the view.

Every handler replaces the full list wholesale and writes it to session
storage. It then recomputes the view under the unchanged current period.

- `onTaskAdded` appends a task.
- `onToggleTask` flips the completion flag of every task with the given id.
- `onDeleteTask` removes every task with the given id.
- `clearAllTasks` empties the list behind a yes/no confirmation.
- Four getters count the view and the full list.

The model is functional. The component becomes an immutable `Board` record,
and each handler becomes a pure function from a board to a board. The
current moment and the answer to the confirmation dialog are passed in as
parameters.

Dates are modelled abstractly (module `Calendar`). A valid JavaScript `Date`
becomes a `Moment`: a day number counted from Thursday 1970-01-01, plus the
milliseconds since that day's midnight. An `Invalid Date` is a separate
constructor. Every comparison with an invalid date is false, because its
time value is NaN, so an invalid due date never passes the today, week or
month filters.

`getFullYear()`, `getMonth()` and `getDate()` read the proleptic Gregorian
calendar date of a day (`Calendar.Civil`). Its numbering `DayNumber` is
proved to be its inverse in both directions, and the day after any day
carries the next calendar date. `getDay()` is `(day + 4) % 7`, with 0 for
Sunday. `new Date(y, m, d)` and `setDate(n)` both compute ECMAScript's
MakeDay: a day of the month past the month's end runs on into later
months. `new Date(y, m, d)` also reads a year from 0 to 99 as 1900 + y, as
the `Date` constructor of ECMA-262 does. So `today` at task-board.ts:79 and
each rebuilt due date at task-board.ts:85-87 are the midnight of their own
day, except in years 0 to 99, where they are the midnight of the same date
1900 years later (0000-02-29 runs on to 1900-03-01)
(`Calendar.StartOfDayMidnight`, `Calendar.CalendarDayKeeps`,
`Calendar.CalendarDayTwoDigit`).
The week bounds at task-board.ts:93-96 reduce to "the Sunday on or before
today, and six days later" (`Periods.WeekBounds`).

The week filter keeps the code's behaviour exactly. Both bounds are
midnights, and the test at task-board.ts:99 compares full time values. So a
task due on the week's Saturday after 00:00 is not shown under `week`, even
though `today` shows it on that Saturday (`Periods.DueThisWeekIff`,
`Periods.TodayInWeek`, `Scenarios.SaturdayEveningOutsideWeek`).

Three behaviours a reader might expect are absent from the component:

- `onDeleteTask` asks for no confirmation (task-board.ts:142-151).
- `onTaskAdded` does not validate titles and does not generate identifiers:
  it appends the task it is given (task-board.ts:120-129).
- Identifiers are not guaranteed unique. Toggle and delete act on every task
  with the id. Uniqueness is proved to survive toggles and deletes, and to
  survive an addition exactly when the new id is fresh.

Modules, one file each: `Wrappers` (Option), `Seqs` (order-preserving
`Filter` and `Map`, the counterparts of `Array.prototype.filter`/`map`),
`Calendar`, `Tasks` (the task record and the three list mutations),
`Periods` (`filterTasks`), `TaskBoard` (the component's state and handlers)
and `Scenarios` (concrete days in July 2025, and one day of the year 50).

## Model

| member | source | states |
|---|---|---|
| Tasks.Append | src/app/components/dashboard/task-board/task-board.ts:120-124 | the new list is one longer, the old list unchanged and in order as its prefix, the new task last |
| Tasks.Toggle | src/app/components/dashboard/task-board/task-board.ts:130-134 | length and order kept; every task keeps id, title, due date and creation date; `completed` is flipped exactly on the tasks whose id matches |
| Tasks.ToggleTwice | src/app/components/dashboard/task-board/task-board.ts:130-134 | toggling the same id twice restores the original list |
| Tasks.Delete | src/app/components/dashboard/task-board/task-board.ts:142-144 | a task is kept iff its id differs; each kept task keeps its multiplicity; the result is an order-preserving subsequence |
| Tasks.DeleteAbsent | src/app/components/dashboard/task-board/task-board.ts:142-144 | when no task carries the id, the list is unchanged |
| Tasks.DeleteIdempotent | src/app/components/dashboard/task-board/task-board.ts:142-144 | a second delete of the same id removes nothing more |
| Tasks.DeleteUndoesAppend | src/app/components/dashboard/task-board/task-board.ts:142-144 | deleting a just-added task whose id was fresh gives back the list before the addition |
| Tasks.AppendUniqueIds | src/app/components/dashboard/task-board/task-board.ts:120-124 | from distinct ids, appending keeps ids distinct iff the new id is not already present |
| Tasks.DeleteKeepsUniqueIds | src/app/components/dashboard/task-board/task-board.ts:142-144 | deleting keeps distinct ids distinct |
| Tasks.DeletePresentRemovesOne | src/app/components/dashboard/task-board/task-board.ts:142-144 | with distinct ids, deleting a present id shortens the list by exactly one |
| Periods.Classify | src/app/components/dashboard/task-board/task-board.ts:77-111 | the empty string is "no period", the three strings `today`, `week`, `month` select their filter, and every other string falls to the default branch |
| Periods.FilterTasks | src/app/components/dashboard/task-board/task-board.ts:73-117 | the view is an order-preserving subsequence of the full list; a task is in it iff the period's test accepts it, with its full multiplicity; `''` gives the whole list titled "My Tasks", an unrecognised string the whole list titled "All Tasks", and each range its own title |
| Periods.DueTodayIff | src/app/components/dashboard/task-board/task-board.ts:79-89 | `today` accepts a task iff its due date is valid and rebuilds to the same calendar day as now; outside years 0 to 99 that means due on the current day, whatever its time of day |
| Periods.WeekBounds | src/app/components/dashboard/task-board/task-board.ts:79-96 | week start is the midnight of the Sunday on or before today's rebuilt day (weekday 0), week end the midnight six days later, across month and year boundaries |
| Periods.DueThisWeekIff | src/app/components/dashboard/task-board/task-board.ts:91-100 | `week` accepts a task iff its due date is valid, on or after that Sunday, and either before the Saturday or exactly at the Saturday's midnight |
| Periods.DueThisMonthIff | src/app/components/dashboard/task-board/task-board.ts:102-107 | `month` accepts a task iff its due date is valid and falls on a day of the current calendar month, with no year remapping |
| Periods.TodayInWeek | src/app/components/dashboard/task-board/task-board.ts:79-100 | a task due today is in the week view iff today is not Saturday or the task is due at midnight; a due date in years 0 to 99 that matches `today` is never in the week |
| Periods.TodayInMonth | src/app/components/dashboard/task-board/task-board.ts:82-107 | outside years 0 to 99, every task shown under `today` is shown under `month` |
| Periods.KeepDependsOnDueDate | src/app/components/dashboard/task-board/task-board.ts:84-107 | whether a period shows a task depends on its due date alone |
| Periods.ViewAfterAppend | src/app/components/dashboard/task-board/task-board.ts:120-128 | after an addition the view is the old view plus the new task at the end when the period shows it, and the old view otherwise |
| Periods.ViewAfterToggle | src/app/components/dashboard/task-board/task-board.ts:130-140 | filtering the toggled list equals toggling the filtered view: a toggle never moves tasks in or out of the view |
| Periods.ViewAfterDelete | src/app/components/dashboard/task-board/task-board.ts:142-150 | filtering after a delete equals deleting from the filtered view |
| Periods.ViewOfEmpty | src/app/components/dashboard/task-board/task-board.ts:153-158 | every period shows nothing of an empty list |
| Calendar.TimeValueOrder | src/app/components/dashboard/task-board/task-board.ts:98-100 | comparing time values orders moments by day first and time of day second |
| Calendar.TimeValueInjective | src/app/components/dashboard/task-board/task-board.ts:88 | equal time values mean equal moments |
| Calendar.StartOfDayMidnight | src/app/components/dashboard/task-board/task-board.ts:85-87 | rebuilding a date from `getFullYear()`, `getMonth()` and `getDate()` gives a midnight: of the same day outside years 0 to 99, of a day whose year is 1900 more inside them; an invalid date stays invalid |
| Calendar.CalendarDayKeeps | src/app/components/dashboard/task-board/task-board.ts:85-87 | outside years 0 to 99, rebuilding a date from its year, month and day gives back its own day |
| Calendar.CalendarDayTwoDigit | src/app/components/dashboard/task-board/task-board.ts:85-87 | in years 0 to 99 the rebuilt date is the same month and day of the month 1900 years later; the one date missing then, 0000-02-29, becomes 1900-03-01 |
| Calendar.TwoDigitYearMoves | src/app/components/dashboard/task-board/task-board.ts:85-87 | in years 0 to 99 the rebuilt date lies at least 1900 × 365 days after the date itself |
| Calendar.Weekday | src/app/components/dashboard/task-board/task-board.ts:94 | `getDay()` lies in 0..6 |
| Calendar.CivilValid | src/app/components/dashboard/task-board/task-board.ts:105-106 | every day has a real calendar date: `getMonth()` in 0..11 and `getDate()` between 1 and the length of that month in that year |
| Calendar.CivilRoundTrip | src/app/components/dashboard/task-board/task-board.ts:105-106 | numbering the calendar date of any day gives back the day, so distinct days have distinct fields |
| Calendar.CivilOfDayNumber | src/app/components/dashboard/task-board/task-board.ts:85-87 | every real calendar date is the date of its own day number |
| Calendar.DayNumberNext | src/app/components/dashboard/task-board/task-board.ts:94-96 | the calendar date after a real date is real and numbered one day later, across month ends, leap Februaries and New Year |
| Calendar.CivilNext | src/app/components/dashboard/task-board/task-board.ts:94-96 | the day after any day carries the next calendar date, so the fields follow the proleptic Gregorian calendar day by day |
| Calendar.SameMonthIff | src/app/components/dashboard/task-board/task-board.ts:104-106 | two days have equal `getMonth()` and `getFullYear()` iff the first lies from the first day of the second's month up to that month's length later |
| Calendar.SetDateMoves | src/app/components/dashboard/task-board/task-board.ts:94-96 | `setDate(getDate() + k)` moves a date by exactly k days |
| Calendar.SetDateInMonth | src/app/components/dashboard/task-board/task-board.ts:94-96 | `setDate(n)` with n inside the month keeps year and month and sets the day of the month to n |
| TaskBoard.LoadTasksFromStorage | src/app/components/dashboard/task-board/task-board.ts:42-63 | the loaded list is the stored one, or empty when storage holds nothing usable; nothing else changes |
| TaskBoard.SaveTasksToStorage | src/app/components/dashboard/task-board/task-board.ts:64-71 | afterwards storage holds exactly the full list; nothing else changes |
| TaskBoard.Refilter | src/app/components/dashboard/task-board/task-board.ts:73-117 | view and title become those of the given period; the list, current period and storage are untouched |
| TaskBoard.OnRouteParams | src/app/components/dashboard/task-board/task-board.ts:36-40 | a missing parameter means the empty period; the parameter becomes the current period and the view is derived from it; list and storage untouched |
| TaskBoard.Init | src/app/components/dashboard/task-board/task-board.ts:31-41 | the list is what storage held, or empty; the view is derived and the board consistent |
| TaskBoard.OnTaskAdded | src/app/components/dashboard/task-board/task-board.ts:120-129 | the list grows by the task at the end; storage holds the new list; the view is recomputed under the unchanged period |
| TaskBoard.OnToggleTask | src/app/components/dashboard/task-board/task-board.ts:130-141 | only the completion flags of tasks with the id change; storage and view follow under the unchanged period |
| TaskBoard.OnDeleteTask | src/app/components/dashboard/task-board/task-board.ts:142-151 | exactly the tasks with the id leave the list, the rest keep their order and multiplicity; storage and view follow, with no confirmation asked |
| TaskBoard.ClearAllTasks | src/app/components/dashboard/task-board/task-board.ts:153-160 | once confirmed, list, storage and view are empty under the unchanged period; otherwise the board is unchanged |
| TaskBoard.CountsAddUp | src/app/components/dashboard/task-board/task-board.ts:161-171 | completed count plus pending count equals the view's total |
| TaskBoard.TotalAtMostAll | src/app/components/dashboard/task-board/task-board.ts:169-175 | the view's total never exceeds the full list's count |
| TaskBoard.RouteIdempotent | src/app/components/dashboard/task-board/task-board.ts:36-40 | applying the same route parameter twice at the same moment equals applying it once |
| TaskBoard.ReloadRestoresList | src/app/components/dashboard/task-board/task-board.ts:42-71 | initialising from what the board saved restores its full list |
| TaskBoard.AddedTaskView | src/app/components/dashboard/task-board/task-board.ts:120-128 | at the same moment, an addition extends the view by the task iff the current period shows it |
| TaskBoard.ToggledTaskView | src/app/components/dashboard/task-board/task-board.ts:130-140 | at the same moment, a toggle changes the view only by the same toggle |
| TaskBoard.DeletedTaskView | src/app/components/dashboard/task-board/task-board.ts:142-150 | at the same moment, a delete changes the view only by the same delete |
| TaskBoard.ClearedViewEmpty | src/app/components/dashboard/task-board/task-board.ts:153-158 | after a confirmed clear, every period at any later moment shows an empty view |
| TaskBoard.DeleteCountsDown | src/app/components/dashboard/task-board/task-board.ts:142-146 | with distinct ids, deleting a present id lowers the full count by one and keeps ids distinct |
| TaskBoard.AddCountsUp | src/app/components/dashboard/task-board/task-board.ts:120-124 | an addition raises the full count by one and keeps ids distinct iff the new id is fresh |
| TaskBoard.ToggleKeepsCount | src/app/components/dashboard/task-board/task-board.ts:130-136 | a toggle keeps the full count and distinct ids |
| TaskBoard.StepKeepsConsistent | src/app/components/dashboard/task-board/task-board.ts:36-160 | each handler keeps the view a subsequence of the list, the title in step with the period and storage in step with the list |
| TaskBoard.RunKeepsConsistent | src/app/components/dashboard/task-board/task-board.ts:31-160 | so does any sequence of handled events after initialisation |
| TaskBoard.RunCounts | src/app/components/dashboard/task-board/task-board.ts:120-160 | over any run whose additions bring fresh ids, whose deletes name present ids and whose clears are refused, ids stay distinct and the full count is the initial count plus additions less deletions |
| Scenarios.EpochIsThursday | src/app/components/dashboard/task-board/task-board.ts:94 | day 0 is 1970-01-01, whose `getDay()` is 4, a Thursday |
| Scenarios.SameMonthKept | src/app/components/dashboard/task-board/task-board.ts:102-107 | on 2025-07-10, tasks due 07-15 and 07-20 both show under `month`, titled "This Month's Tasks" |
| Scenarios.NextMonthExcluded | src/app/components/dashboard/task-board/task-board.ts:102-107 | on 2025-07-31, a task due on the next day, 08-01, does not show under `month` |
| Scenarios.TodayOnly | src/app/components/dashboard/task-board/task-board.ts:82-89 | of a task due today at 09:00 and one due tomorrow, only the first shows under `today` |
| Scenarios.SaturdayEveningOutsideWeek | src/app/components/dashboard/task-board/task-board.ts:91-100 | 2025-07-12 is a Saturday, and on it a task due 18:00 that day shows under `today` but not under `week` |
| Scenarios.YearFiftyShownToday | src/app/components/dashboard/task-board/task-board.ts:79-107 | on 1950-07-10, a task due 0050-07-10 shows under `today`, its date being rebuilt in 1950, but neither under `week` nor under `month` |
| Scenarios.UnreadableStorage | src/app/components/dashboard/task-board/task-board.ts:54-62 | missing or unparsable storage leaves an empty list and view |

## Left out

- Angular plumbing is left out: the component decorator, `ngOnInit` scheduling, the `ActivatedRoute` subscription and `BehaviorSubject` emission. The board is a plain record, and the route's emissions are `OnRouteParams` events.
- `sessionStorage` I/O and JSON are left out. Storage is an `Option<seq<Task>>` slot, where `None` means a missing key, an empty string, or text that `JSON.parse` or `.map` rejects. Serialising a list and reviving it is taken as the identity. In real JavaScript an `Invalid Date` is written as `null` and revives as the epoch; this is not modelled.
- A failed storage write only logs to `console.error`, and the in-memory board stays authoritative. The model does not represent write failures, and its storage slot always receives the list.
- The `confirm()` dialog is a boolean parameter of `ClearAllTasks`.
- `new Date()` is the `now` parameter. Each handler takes its own `now`, as each call reads the clock afresh.
- Time zones and daylight saving are left out. Time values count from local midnight, and every day has 86 400 000 ms. A day of 23 or 25 hours, or a time-zone change between two reads, is not represented.
- Periods.TodayInMonth: holds only outside years 0 to 99. There `today` compares rebuilt dates and `month` the fields as they are, so a task can show under `today` but not under `month` (`Scenarios.YearFiftyShownToday`).
- The `Date` range limit of ±8.64e15 ms is left out: day numbers are unbounded.
- `TaskBoard.CompletedCount`, `PendingCount`, `TotalCount`, `AllTasksCount` and `CurrentTasks` (task-board.ts:161-179) are modelled without contracts of their own. Their properties are stated by `TaskBoard.CountsAddUp`, `TaskBoard.TotalAtMostAll` and the count lemmas.
- `task-interface.ts` is not part of this model. The `Task` fields (id, title, completed, dueDate, createdAt) are taken from their use in the component.
- The presentational components `TaskList` and `AddTaskBar`, the templates and the CSS are left out. Title validation and id generation, if they happen anywhere, happen there.
