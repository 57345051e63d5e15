# Task organisation core of a to-do application, in Dafny

This project models the date-relative organisation of tasks in a React +
Supabase to-do application:

- the due-date classifier `getDueGroupKey` and the grouping pipeline
  `groupTasksByDueDate` (`src/utils/groupByDueDate.ts`);
- the recurrence advance `getNextDueDate`, the successor decision of
  `toggleComplete`, the local updates of the `tasks` list (`fetchTasks`
  normalisation, `deleteTask`, the optimistic `reorderTasks`) and the row
  `createTask` inserts (`src/hooks/useTasks.ts`);
- the reminder selection, its overdue/today split, the notification text
  and the `notified`/`dismissed` flags (`src/hooks/useReminders.ts`);
- the folder/tag filter, the counters, the save request and the reminder
  banner of the dashboard (`src/pages/Dashboard.tsx`);
- the due-date label and the red highlight of a task card
  (`src/components/TaskCard.tsx`).

Modules, one per file:

| file | module | contents |
|---|---|---|
| `wrappers.dfy` | `Wrappers` | `Option`, `Result` |
| `seqs.dfy` | `Seqs` | the order-preserving subsequence relation |
| `decimal.dfy` | `Decimal` | decimal numerals and their values |
| `calendar.dfy` | `Calendar` | proleptic Gregorian dates, day numbers, weekdays, Monday weeks, adding days, months and years with date-fns' clamping |
| `iso_date.dfy` | `IsoDate` | the `YYYY-MM-DD` due-date text (the full-date of section 5.6 of RFC 3339): reading as `parseISO`, writing as `format(d, 'yyyy-MM-dd')`, and the `isPast`/`isToday` tests |
| `types.dfy` | `Types` | tasks, tags, folders, group keys, filters, the insert row |
| `group_labels.dfy` | `GroupLabels` | `DUE_GROUP_CONFIG`, the heading and colours of each group |
| `due_groups.dfy` | `DueGroups` | `ACTIVE_GROUP_ORDER`, the classifier `getDueGroupKey` and the calendar meaning of its keys |
| `group_by_due_date.dfy` | `GroupByDueDate` | the grouping pipeline `groupTasksByDueDate` |
| `use_tasks.dfy` | `UseTasks` | next due date, row normalisation, list updates, `createTask`, the `TaskStore` class holding the `tasks` state |
| `use_reminders.dfy` | `UseReminders` | due tasks, notification text, the `Reminders` class holding the two flags |
| `dashboard.dfy` | `Dashboard` | filter, counters, banner, save request |
| `task_card.dfy` | `TaskCard` | card label and highlight |

Conventions of the model:

- **Today.** The code reads the clock (`new Date()`, `isPast`, `isToday`).
  The model takes the current day as a parameter `today`, a valid `Date`.
  `parseISO` gives local midnight of the named day and the current instant
  lies inside `today`. So `isPast(d) && !isToday(d)` holds exactly when the
  day of `d` is before `today`, and `isToday(d)` exactly when it is `today`.
  This is the model's assumption about time.
- **Dates.** A due date is valid when it is exactly `DDDD-DD-DD` with a month
  and day that exist. Any other non-empty string is date-fns' Invalid Date:
  every date-fns test on it is false, `getYear` is NaN, and `format` throws.
  So such a task is grouped as `later`, never counts as due, and makes the
  card's `format` and `getNextDueDate` throw (`FormatThrows`, None).
  Day numbers count from 0000-01-01 in the proleptic Gregorian calendar.
  `format` with `yyyy` writes the era year, so a date of year 0 (1 BC) is
  written with the year "0001"; `EraYear` models this.
- **Weeks.** Weeks start on Monday (`weekStartsOn: 1`). `WeekStart(n)` is
  the day number of the Monday on or before day `n`, as `startOfWeek` gives
  it. `Weekday` is anchored by `MondayTenthOfJune2024`: 10 June 2024 was a
  Monday and has weekday 0. Two days are in the same week exactly when
  their `WeekStart` is the same.
- **Hook state.** Each hook's state is a class: `TaskStore.tasks` and
  `Reminders.dismissed`/`notified`. Replies of the database and of the
  browser are parameters of the methods. A method that would refetch
  returns that fact instead; `FetchTasks` applies a fetch reply.
- **Where the code differs from the design.** The model follows the code.
  A malformed due date is classified as `later`; it does not raise a
  validation error. `toggleComplete` spawns a successor whenever it is
  called with `completed` true for a recurring task with a due date; it does
  not check that the task was incomplete before. The code has no task sorter
  and no drag-and-drop resolver, so the model has neither.

## Model

| member | source | states |
|---|---|---|
| `Calendar.DayNumberOrder` | src/utils/groupByDueDate.ts:54-55 | the day number orders valid dates as the calendar does, and equal day numbers mean the same date; this is what makes "before today" a day comparison |
| `Calendar.AddOneDay` | src/hooks/useTasks.ts:34 | the next calendar day is a valid date one day number later |
| `Calendar.AddDays` | src/hooks/useTasks.ts:34-35 | adding `n` days gives a valid date exactly `n` day numbers later |
| `Calendar.AddMonths` | src/hooks/useTasks.ts:36 | adding `k` months gives a valid date `k` months on in the count `12 * year + month`, whose day is the original day clamped to the length of that month |
| `Calendar.AddYears` | src/hooks/useTasks.ts:37 | adding `k` years keeps the month, adds `k` to the year, and clamps the day to the length of that month |
| `Calendar.MonthIndexUnique` | src/hooks/useTasks.ts:36 | the count `12 * year + month` fixes the year and the month |
| `Calendar.WeekStart` | src/utils/groupByDueDate.ts:56-59 | `startOfWeek` with Monday starts: a Monday (when it is a day of the count) among the seven days ending on the given day |
| `Calendar.MondayTenthOfJune2024` | src/utils/groupByDueDate.ts:56 | the weekday numbering is anchored: 10 June 2024 is a Monday |
| `Calendar.WeekStartUnique` | src/utils/groupByDueDate.ts:56 | the Monday among the seven days ending on a day is the only one, so `WeekStart` is well defined |
| `Calendar.NextWeekStart` | src/utils/groupByDueDate.ts:58 | the week a week from a day starts seven days after that day's week |
| `Calendar.WeekBands` | src/utils/groupByDueDate.ts:56-60 | a day is in the week a week from today exactly when its Monday is seven days after today's; an earlier day is never in a later week; a later day is in today's week, the next one, or a later one |
| `Calendar.AddOneMonth` | src/hooks/useTasks.ts:36 | one month on: the next month (January of the next year after December), the same day or the month's last day if shorter, strictly later |
| `Calendar.AddOneYear` | src/hooks/useTasks.ts:37 | one year on: same month, same day except that 29 February becomes the last day of February, strictly later |
| `IsoDate.Parse` | src/utils/groupByDueDate.ts:51 | a string that parses has the `DDDD-DD-DD` shape and names an existing date |
| `IsoDate.EraYear` | src/hooks/useTasks.ts:34-37 | the year `yyyy` writes is at least 1, and is the year itself from year 1 on |
| `IsoDate.Format` | src/hooks/useTasks.ts:34-37 | the year digits, then `-MM-dd`; for years up to 9999 exactly the `DDDD-DD-DD` shape |
| `IsoDate.ParseFormat` | src/hooks/useTasks.ts:34-37 | writing a date of a year from 1 to 9999 as `yyyy-MM-dd` and reading it back gives the same date |
| `IsoDate.FormatParse` | src/utils/groupByDueDate.ts:51 | a string that parses is exactly the `yyyy-MM-dd` writing of its date, except that a year written "0000" is written back as "0001" |
| `IsoDate.PastDayByCalendar` | src/utils/groupByDueDate.ts:54 | `isPast && !isToday` holds exactly for a valid date before today in calendar order |
| `IsoDate.TodayByCalendar` | src/utils/groupByDueDate.ts:55 | `isToday` holds exactly for a valid date neither before nor after today, and never together with the past-day test |
| `Decimal.StringToNatOfNatToString` | src/hooks/useReminders.ts:35-37 | the numeral of a count reads back as that count |
| `GroupLabels.DueGroupConfig` | src/utils/groupByDueDate.ts:15-36 | every key has a non-empty heading, a `text-` colour class and a `bg-` dot class |
| `GroupLabels.DueGroupLabelsDistinct` | src/utils/groupByDueDate.ts:15-36 | no two keys share a heading |
| `DueGroups.ActiveGroupOrderFacts` | src/utils/groupByDueDate.ts:38-47 | the active order lists the eight keys other than `completed`, each once |
| `DueGroups.GetDueGroupKey` | src/utils/groupByDueDate.ts:49-55 | never `completed`; `no-date` exactly for a null or empty date; `overdue` exactly for a valid day before today; `today` exactly for today |
| `DueGroups.DateKey` | src/utils/groupByDueDate.ts:54-64 | on a valid date: never `no-date` or `completed`; `overdue` exactly for an earlier day number; `today` exactly for today |
| `DueGroups.DueGroupKeyByCalendar` | src/utils/groupByDueDate.ts:56-64 | a malformed date is `later`; on a valid date, `this-week` exactly for a later day with today's `WeekStart`; `next-week` exactly for a day whose `WeekStart` is seven days after today's; past that, `this-month` for today's month, `this-year` for a later month of today's year, `later` for a later year |
| `DueGroups.DateKeyIsByCalendar` | src/utils/groupByDueDate.ts:56-64 | the same week, month and year meaning of the key of a valid date |
| `DueGroups.BandKeyByWeeks` | src/utils/groupByDueDate.ts:56-64 | the chain of tests after `today`, given how weeks fall, reads as containment: this week, the next week, then month and year past the next week |
| `GroupByDueDate.CompletedTasks` | src/utils/groupByDueDate.ts:72 | an order-preserving subsequence holding exactly the completed tasks |
| `GroupByDueDate.CompletedTasksCounts` | src/utils/groupByDueDate.ts:72 | each completed task is kept as many times as the input holds it, any other not at all |
| `GroupByDueDate.ActiveTasks` | src/utils/groupByDueDate.ts:76 | an order-preserving subsequence holding exactly the incomplete tasks |
| `GroupByDueDate.ActiveTasksCounts` | src/utils/groupByDueDate.ts:76 | each incomplete task is kept as many times as the input holds it, any other not at all |
| `GroupByDueDate.PartitionSizes` | src/utils/groupByDueDate.ts:72-77 | completed and incomplete tasks together number all tasks |
| `GroupByDueDate.Bucket` | src/utils/groupByDueDate.ts:80-84 | an order-preserving subsequence holding exactly the tasks of one key |
| `GroupByDueDate.BucketCounts` | src/utils/groupByDueDate.ts:80-84 | each task of the key is kept as many times as the input holds it, any other not at all |
| `GroupByDueDate.PushKeepsBuckets` | src/utils/groupByDueDate.ts:81-83 | pushing a task onto its key's list keeps every list equal to its key's bucket of the tasks seen so far |
| `GroupByDueDate.GroupsOf` | src/utils/groupByDueDate.ts:67-99 | under `completed` only `completed` groups, under `active` none, and never an empty group |
| `GroupByDueDate.GroupTasksByDueDate` | src/utils/groupByDueDate.ts:67-99 | the two loops and the final push return exactly `GroupsOf`, the filter, partition, bucketing and ordering of the groups |
| `GroupByDueDate.BuildGroupMap` | src/utils/groupByDueDate.ts:79-84 | the first loop leaves, for each key, exactly the incomplete tasks of that key in input order, and no empty list |
| `GroupByDueDate.EmitGroups` | src/utils/groupByDueDate.ts:86-92 | the second loop emits the non-empty lists of the map in the active order |
| `GroupByDueDate.ActiveGroupsContents` | src/utils/groupByDueDate.ts:86-92 | emitted groups are the non-empty buckets of listed keys, and every non-empty bucket is emitted |
| `GroupByDueDate.ActiveGroupsKeys` | src/utils/groupByDueDate.ts:87-91 | every emitted group is non-empty and under a listed key |
| `GroupByDueDate.ActiveGroupsRanked` | src/utils/groupByDueDate.ts:86-92 | emitted groups follow the order of the listed keys |
| `GroupByDueDate.GroupsWhenDone` | src/utils/groupByDueDate.ts:71-74 | with filter `completed`: one `completed` group with the completed tasks in input order, or nothing when none is completed |
| `GroupByDueDate.GroupsOrdered` | src/utils/groupByDueDate.ts:86-96 | groups follow the active order with `completed` last, no key appears twice, no group is empty |
| `GroupByDueDate.GroupsPlaceActiveTasks` | src/utils/groupByDueDate.ts:79-92 | with `all` or `active`, each group holds exactly its key's incomplete tasks in input order, and every incomplete task is in the group of its key |
| `GroupByDueDate.GroupsCompletedLast` | src/utils/groupByDueDate.ts:71-96 | a `completed` group appears exactly when the filter is not `active` and some task is completed; under `all` it is the last group |
| `GroupByDueDate.GroupsCoverAdmitted` | src/utils/groupByDueDate.ts:71-96 | the group sizes add up to the number of tasks the filter admits: none lost, none duplicated |
| `UseTasks.Advance` | src/hooks/useTasks.ts:33-38 | one recurrence period on from a valid date is a valid date |
| `UseTasks.GetNextDueDate` | src/hooks/useTasks.ts:31-39 | a next due date exists exactly when the current one parses (otherwise `format` throws) |
| `UseTasks.AdvanceDaily` | src/hooks/useTasks.ts:34 | daily adds exactly one day |
| `UseTasks.AdvanceWeekly` | src/hooks/useTasks.ts:35 | weekly adds exactly seven days and keeps the weekday |
| `UseTasks.AdvanceMonthly` | src/hooks/useTasks.ts:36 | monthly moves to the next month, keeping the day when that month has it and taking its last day otherwise |
| `UseTasks.AdvanceYearly` | src/hooks/useTasks.ts:37 | yearly keeps month and day, except 29 February becomes 28 February in a common year |
| `UseTasks.AdvanceIsLater` | src/hooks/useTasks.ts:31-38 | every recurrence moves the date strictly later |
| `UseTasks.NextDueDateIsLater` | src/hooks/useTasks.ts:31-38 | a next date is returned; the advanced date is strictly later; the text reads back as the advanced date, or starts with the era year "0001" when that date is in year 0 |
| `UseTasks.DailyAcrossMonthEnd` | src/hooks/useTasks.ts:34 | `2024-01-31` daily gives `2024-02-01` |
| `UseTasks.DailyAcrossYearEnd` | src/hooks/useTasks.ts:34 | `2024-12-31` daily gives `2025-01-01` |
| `UseTasks.MonthlyClampsToMonthEnd` | src/hooks/useTasks.ts:36 | `2024-01-31` monthly gives `2024-02-29` |
| `UseTasks.YearlyFromLeapDay` | src/hooks/useTasks.ts:37 | `2024-02-29` yearly gives `2025-02-28` |
| `UseTasks.NoNextDateForInvalidDate` | src/hooks/useTasks.ts:32-34 | a thirteenth month gives no next date |
| `UseTasks.OrNull` | src/hooks/useTasks.ts:65-67 | `?? null`: a value only for a present column, and then that value |
| `UseTasks.JoinedTags` | src/hooks/useTasks.ts:69 | the tags of the join are exactly its non-null entries, never more than the entries |
| `UseTasks.JoinedTagsAppend` | src/hooks/useTasks.ts:69 | dropping null entries distributes over concatenation, so the order of the tags is kept |
| `UseTasks.JoinedTagsOfOne` | src/hooks/useTasks.ts:69 | a join entry contributes its tag, or nothing when it is null |
| `UseTasks.NormaliseRow` | src/hooks/useTasks.ts:57-70 | the plain columns are copied; priority, recurrence and sort order are the column's value when present and null otherwise; the tags are the non-null joined tags in join order, or an empty array when the join is missing |
| `UseTasks.Normalise` | src/hooks/useTasks.ts:57 | one normalised task per row, in row order |
| `UseTasks.NormalisedTasksHaveTags` | src/hooks/useTasks.ts:69 | every normalised task carries a tag array |
| `UseTasks.WithoutTask` | src/hooks/useTasks.ts:159 | the local delete keeps, in order, exactly the tasks with another id |
| `UseTasks.WithoutTaskCounts` | src/hooks/useTasks.ts:159 | each task with another id is kept as many times as the list holds it, any other not at all |
| `UseTasks.WithoutAbsentTask` | src/hooks/useTasks.ts:159 | deleting an id no task has changes nothing |
| `UseTasks.WithoutTaskIdempotent` | src/hooks/useTasks.ts:159 | deleting twice is deleting once |
| `UseTasks.FindTask` | src/hooks/useTasks.ts:171 | the first task with the id, or None exactly when no task has it |
| `UseTasks.FindUpdate` | src/hooks/useTasks.ts:193 | the first update with the id, or None exactly when no update has it |
| `UseTasks.WithSortOrders` | src/hooks/useTasks.ts:191-196 | same length and order; each task takes the sort order of the first update with its id, and no other field changes |
| `UseTasks.WithSortOrdersIdempotent` | src/hooks/useTasks.ts:191-196 | applying the same reorder twice is applying it once |
| `UseTasks.WithSortOrdersNoMatch` | src/hooks/useTasks.ts:193-194 | updates naming no task leave the list unchanged |
| `UseTasks.EmptyToNull` | src/hooks/useTasks.ts:95-97 | `x \|\| null`: an empty or missing string becomes null, any other is kept |
| `UseTasks.NewTaskRow` | src/hooks/useTasks.ts:89-101 | "Not logged in" exactly without a user; otherwise the row copies title, priority and recurrence and stores notes, due date and folder only when non-empty |
| `UseTasks.NewTaskRowHasNoEmptyStrings` | src/hooks/useTasks.ts:95-97 | a new task is never stored with an empty due date, notes or folder |
| `UseTasks.TaskStore.constructor` | src/hooks/useTasks.ts:41-42 | the list starts empty |
| `UseTasks.TaskStore.FetchTasks` | src/hooks/useTasks.ts:45-74 | with a user and rows, the list becomes their normalisation; no user, an error or no data leave it |
| `UseTasks.TaskStore.DeleteTask` | src/hooks/useTasks.ts:157-160 | the list becomes the local delete of the old one: no task with the id, the rest in order |
| `UseTasks.TaskStore.ReorderTasks` | src/hooks/useTasks.ts:189-196 | the list becomes the optimistic reorder of the old one |
| `UseTasks.TaskStore.ToggleComplete` | src/hooks/useTasks.ts:162-187 | a failed update ends the call; a successor exists exactly when completing a found recurring task with a valid due date; it copies title, notes, folder, priority and recurrence, carries the user and the next due date; a malformed date makes the call throw |
| `UseTasks.TaskStore.CreateTask` | src/hooks/useTasks.ts:88-119 | without a user, "Not logged in" and nothing inserted; with one, the row of `NewTaskRow` is inserted; an insert error or no data returns its message with no links and no refetch; on success no error, one tag link per tag id with the new row's id, and a refetch |
| `UseReminders.IsDue` | src/hooks/useReminders.ts:9-13 | a due task is incomplete and has a due date that parses |
| `UseReminders.IsDueByDay` | src/hooks/useReminders.ts:9-13 | a task is due exactly when it is incomplete and names a valid day on or before today |
| `UseReminders.DueTasks` | src/hooks/useReminders.ts:9-13 | `dueTasks` is an order-preserving subsequence holding exactly the due tasks |
| `UseReminders.DueTasksCounts` | src/hooks/useReminders.ts:9-13 | each due task is kept as many times as the input holds it, any other not at all |
| `UseReminders.DueTasksExclude` | src/hooks/useReminders.ts:10 | completed tasks and tasks without a due date are never due |
| `UseReminders.OverdueTasks` | src/hooks/useReminders.ts:28-30 | an order-preserving subsequence holding exactly the tasks of an earlier day |
| `UseReminders.OverdueTasksCounts` | src/hooks/useReminders.ts:28-30 | each task of an earlier day is kept as many times as the input holds it, any other not at all |
| `UseReminders.TodayTasks` | src/hooks/useReminders.ts:31 | an order-preserving subsequence holding exactly the tasks of today |
| `UseReminders.TodayTasksCounts` | src/hooks/useReminders.ts:31 | each task of today is kept as many times as the input holds it, any other not at all |
| `UseReminders.OverdueTodayDisjoint` | src/hooks/useReminders.ts:28-31 | no task is both overdue and due today |
| `UseReminders.OverdueTodayCover` | src/hooks/useReminders.ts:28-31 | over due tasks, the overdue and today counts add up to the whole |
| `UseReminders.DueTasksSplit` | src/hooks/useReminders.ts:28-31 | the split of `dueTasks` (lines 9-13) covers all of it |
| `UseReminders.OverduePart` | src/hooks/useReminders.ts:35 | the part opens with the count's numeral and ends in "s" exactly when the count exceeds one |
| `UseReminders.TodayPart` | src/hooks/useReminders.ts:37 | the part opens with the count's numeral and ends with " due today" |
| `UseReminders.TodayPartText` | src/hooks/useReminders.ts:37 | the part is the numeral, then " tasks due today" for more than one and " task due today" otherwise |
| `UseReminders.Join` | src/hooks/useReminders.ts:40 | joining no parts gives the empty string, one part gives that part, and otherwise the result opens with the first part and ends with the last |
| `UseReminders.ReminderBody` | src/hooks/useReminders.ts:33-40 | the body is empty exactly when both counts are zero; it opens with the overdue part and ends with the today part whenever each is present |
| `UseReminders.Parts` | src/hooks/useReminders.ts:33-37 | one part per positive count, the overdue part first |
| `UseReminders.ReminderBodyCases` | src/hooks/useReminders.ts:33-40 | both parts joined by " and ", a single part alone, or nothing |
| `UseReminders.OverduePartShape` | src/hooks/useReminders.ts:35 | the part starts with the count's numeral and ends in "s" exactly when the count exceeds one |
| `UseReminders.TodayPartShape` | src/hooks/useReminders.ts:37 | the part starts with the count's numeral and says "tasks" exactly when the count exceeds one |
| `UseReminders.ReminderBodyNotEmpty` | src/hooks/useReminders.ts:33-40 | when some task is due (the effect runs only then, line 16) the body is not empty |
| `UseReminders.Reminders.constructor` | src/hooks/useReminders.ts:6-7 | both flags start false |
| `UseReminders.Reminders.Dismiss` | src/hooks/useReminders.ts:49 | `dismissed` becomes true, `notified` is unchanged |
| `UseReminders.Reminders.RunEffect` | src/hooks/useReminders.ts:15-47 | `notified` becomes true once something is due and never returns to false; a notification is shown only on the first run with something due, with notifications supported and permission granted, with the title "Task Reminder" and the body built from the overdue and today counts |
| `Dashboard.FilteredTasks` | src/pages/Dashboard.tsx:55-59 | an order-preserving subsequence holding exactly the tasks of the selected folder and tag |
| `Dashboard.FilteredTasksCounts` | src/pages/Dashboard.tsx:55-59 | each shown task is kept as many times as the list holds it, any other not at all |
| `Dashboard.NoSelectionShowsAll` | src/pages/Dashboard.tsx:55-59 | with no folder and no tag selected the filter returns the whole list |
| `Dashboard.FilteredTasksSelection` | src/pages/Dashboard.tsx:56-57 | a selected folder keeps only its tasks; a selected tag keeps only tasks with a tag array holding it |
| `Dashboard.FolderTasks` | src/pages/Dashboard.tsx:145-147 | an order-preserving subsequence holding exactly a folder's incomplete tasks |
| `Dashboard.FolderTasksCounts` | src/pages/Dashboard.tsx:145-147 | each incomplete task of the folder is kept as many times as the list holds it, any other not at all |
| `Dashboard.RemainingCount` | src/pages/Dashboard.tsx:106 | the incomplete shown tasks and the completed shown tasks together number all shown tasks |
| `Dashboard.AllTasksCount` | src/pages/Dashboard.tsx:135 | the count and the completed tasks together number all tasks |
| `Dashboard.FolderCount` | src/pages/Dashboard.tsx:145-147 | a folder's count never exceeds the "All Tasks" count |
| `Dashboard.FolderAtMostAll` | src/pages/Dashboard.tsx:145-147 | a folder's incomplete tasks are no more than all incomplete tasks |
| `Dashboard.RemainingAtMostAll` | src/pages/Dashboard.tsx:135 | the "remaining" count of line 106 never exceeds the "All Tasks" count |
| `Dashboard.RemainingWithoutSelection` | src/pages/Dashboard.tsx:135 | with nothing selected the "All Tasks" count equals the "remaining" count of line 106 |
| `Dashboard.RemainingInFolder` | src/pages/Dashboard.tsx:145-147 | with a folder selected and no tag, "remaining" (line 106) equals that folder's sidebar count |
| `Dashboard.RemainingIsActiveGroupsSize` | src/pages/Dashboard.tsx:106 | "remaining" is the number of tasks the `active` view (line 61) lays out in its groups |
| `Dashboard.AttentionLabel` | src/pages/Dashboard.tsx:306 | the banner heading opens with the count's numeral and " task", followed by "s" exactly when the count exceeds one |
| `Dashboard.RemainingLabel` | src/pages/Dashboard.tsx:342 | the heading's line opens with the count's numeral and " task", followed by "s" exactly when the count is not one |
| `Dashboard.PluralRulesAgreeFromOne` | src/pages/Dashboard.tsx:342 | the character after "task" in the banner heading (line 306) and in the "remaining" line is "s" in both or in neither exactly when the count is at least one |
| `Dashboard.BannerShown` | src/pages/Dashboard.tsx:301 | the banner shows only with a due task, and then lists at least the first due title |
| `Dashboard.BannerTitles` | src/pages/Dashboard.tsx:309-313 | at most three titles: those of the first due tasks, in order |
| `Dashboard.BannerMore` | src/pages/Dashboard.tsx:314-316 | "and N more…" appears exactly when more than three tasks are due, with N the count less three |
| `Dashboard.BannerAccountsForAll` | src/pages/Dashboard.tsx:309-316 | listed titles plus N account for every due task |
| `Dashboard.SaveTask` | src/pages/Dashboard.tsx:63-87 | editing gives an update of the edited task with an empty due date sent as null; otherwise a create request with the form's fields |
| `Dashboard.SavedDueDateNeverEmpty` | src/pages/Dashboard.tsx:74 | an empty due date is never saved, on the edit path or the create path |
| `TaskCard.GetDueDateInfo` | src/components/TaskCard.tsx:14-22 | no label exactly without a due date; the format error exactly for a malformed date; the overdue label only for an incomplete task of an earlier day; "Due today" only for an incomplete task of today; a completed task only gets the plain date |
| `TaskCard.LabelClass` | src/components/TaskCard.tsx:17-21 | red text exactly for the overdue label, amber exactly for the today label |
| `TaskCard.IsOverdue` | src/components/TaskCard.tsx:25-29 | the card is red exactly for an incomplete task whose group key is `overdue` |
| `TaskCard.IncompleteLabelByDay` | src/components/TaskCard.tsx:18-21 | an incomplete task's label: overdue before today, "Due today" today, the plain date after |
| `TaskCard.RedExactlyWhenOverdueLabel` | src/components/TaskCard.tsx:18-29 | the card is red exactly when its label is the overdue label, which is exactly when the label's class is the red one |
| `TaskCard.LabelAgreesWithGroupKey` | src/components/TaskCard.tsx:18-20 | for an incomplete task, "Overdue" exactly when its group key is `overdue`, "Due today" exactly when it is `today` |
| `TaskCard.CompletedNeverFlagged` | src/components/TaskCard.tsx:17-29 | a completed task never gets the overdue or today label and is never red |

## Left out

- Supabase calls are not modelled. Their outcomes are parameters: the fetch reply, the insert reply, and a flag for a failed completion update. The tables are not modelled.
- `updateTask` is not modelled: it only forwards its fields to the database and refetches, so it changes no local state of its own.
- The tag links `createTask` inserts and the successor row `toggleComplete` inserts are returned as values; nothing is stored.
- The persistence of `reorderTasks` runs with `Promise.all`. That is concurrency, so only the optimistic local update is modelled.
- The `loading` flag of `useTasks` and the `useEffect` scheduling are not modelled. `RunEffect` is one run of the effect; which renders trigger a run is left out.
- The clock and time zones are replaced by the `today` parameter; the local-midnight assumption is stated above.
- `parseISO` also accepts other ISO 8601 forms (times, week dates, expanded years). Due dates are stored as `yyyy-MM-dd`, so the model reads only that form. Any other string is an Invalid Date in the model.
- `Calendar.AddDays`: the model adds whole calendar days to a date. It does not model the time of day or daylight-saving shifts.
- `IsoDate.Format`: years after 9999 are printed in full, as `yyyy` does. `Parse` reads only four-digit years, so `UseTasks.NextDueDateIsLater` requires the advanced year to be at most 9999.
- `IsoDate.ParseFormat`: a date of year 0 is written with the year "0001", so reading it back gives year 1, which `FormatParse` states; `0000-02-29` written back as `0001-02-29` does not parse at all.
- The `MMM d` text of the card label depends on the locale, so the label keeps the date instead of its text.
- The `as Priority` and `as Recurrence` casts of a fetched row are unchecked in the code. The model types these columns as the enumerations, so a row with an unknown value cannot be written down.
- The browser Notification API is not modelled. Whether the browser supports notifications is a boolean `supported`. Whether permission ends granted, after asking if it was `default`, is a boolean `granted`. The title and icon are constants.
- `localeCompare` tag sorting in `src/hooks/useTags.ts` depends on a locale collator, so it is not modelled.
- Rendering is not modelled. This covers `TaskModal`, `FilterBar`, `TaskGroup`, `TagBadge`, the dnd-kit drag state of `SortableTaskCard`, and login, signup and routing.
- `src/components/ProgressBar.tsx` is not modelled; its percentage uses floating-point division.
- `Dashboard.SaveTask` does not pass a priority or recurrence, because the code does not.
- `UseTasks.GetNextDueDate`: a recurrence is one of the four known values; the `switch` has no default case.
