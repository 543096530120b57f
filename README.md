# simpleplan-web: recurrence and completion engine

simpleplan-web tracks goals and the recurring actions that serve them, along with a daily todo
list. This project models its engine:

- the `YYYY-MM-DD` day keys and the rules that decide on which days an action applies
  (daily, weekdays, one weekday, a custom set of weekdays);
- completion look-up, per-action progress, the current streak and the heat-map intensity;
- the goal evaluators: overdue status, overdue days, overdue actions, and the two goal-progress
  formulas;
- the recurrence labels and the recurrence dialog;
- the goal store: migration of legacy goals, removal of duplicate ids, and the goal and action
  operations;
- the home page, which merges the day's action items into the todo list, writes completion
  changes back and fires the confetti;
- the todo list operations and their completed-first sort;
- the two date navigators.

A local timestamp (`Calendar.Time`) is a pair of a day number, counted from 1970-01-01, and
the milliseconds into that day (0 to 86 399 999). `Calendar.Ms` gives `getTime()`, which is
`day * 86400000 + msOfDay`, and every comparison of two dates compares these values. The
weekday is `(day + 4) % 7`, with Sunday = 0, and the calendar fields come from the Gregorian
400-year cycle (`Calendar.CivilFromDays`). "Now" and newly generated ids are parameters.
Pure code becomes functions with lemmas. The React hooks and components whose state changes
become classes: `GoalStore.GoalStoreState`, `TodoList.TodoListState`, `HomePage.HomePageState`
and `RecurrenceDialog.DialogState`. Their methods are tied to the pure functions by their
postconditions. Loops in the source (`getRelevantDates`, `getMonthDates`,
`getCompletionIntensity`, `getCurrentStreak`, `actionsForSelectedDate`, `handleTodosChange`)
are methods with loop invariants, proved equal to the functions that specify them.

Modules in dependency order:

| module | file |
|---|---|
| Wrappers, Seqs, Strings, Calendar | wrappers.dfy, seqs.dfy, strings.dfy, calendar.dfy |
| Types | types.dfy |
| Rounding | rounding.dfy |
| ActionUtils | action_utils.dfy |
| ProgressTracker | progress_tracker.dfy |
| GoalUtils | goal_utils.dfy |
| GoalCard | goal_card.dfy |
| GoalStore | goal_store.dfy |
| TodoList | todo_list.dfy |
| HomePage | home_page.dfy |
| RecurrenceDialog | recurrence_dialog.dfy |
| DateNavigator, DateNavigatorMobile | date_navigator.dfy, date_navigator_mobile.dfy |

`GoalCard.TimeProgress` gives 0 when the target equals the creation time, because
`totalDuration <= 0` returns before the ratio is taken.

The mobile navigator's `isToday` and its "Today" button (components/DateNavigatorMobile.tsx:13-19
and 140-149) are the desktop navigator's, so `DateNavigator.IsToday` and
`DateNavigator.BackToToday` model both.

## Model

| member | source | states |
|---|---|---|
| ActionUtils.LabelRoundTrip | lib/utils/actionUtils.ts:5-21 | For any rule whose days are 0..6, its label parses back to exactly what the label shows. The kind reads as itself, except an unknown kind, which reads as daily. A weekly day reads back, or Monday when it is absent. A non-empty custom list reads back unchanged. A missing or empty list reads as "Custom". |
| ActionUtils.CustomLabelRoundTrip | lib/utils/actionUtils.ts:13-15 | The day names of a non-empty custom list, joined by ", ", parse back to the same list in the same order. |
| ActionUtils.ParseJoinDayLabels | lib/utils/actionUtils.ts:15 | The joined label starts with the first day's name and decodes to the stored day list. |
| ActionUtils.DayIndexOfName | lib/utils/actionUtils.ts:3 | Each day number's name is three letters long and maps back to that number. |
| ProgressTracker.FormatDateShape | components/ActionProgressTracker.tsx:17-22 | The key is the local year's decimal form, then "-", two digits, "-", two digits. |
| ProgressTracker.FormatDateInjective | components/ActionProgressTracker.tsx:17-22 | Two timestamps get the same key exactly when they fall on the same local day. |
| ProgressTracker.IsDateApplicable | components/ActionProgressTracker.tsx:25-44 | No rule applies before the action's creation instant, and an unrecognised kind never applies. |
| ProgressTracker.ApplicableWeekly | components/ActionProgressTracker.tsx:25-44 | Once the action exists, applicability repeats every seven days. |
| ProgressTracker.DaysPerWeekByKind | components/ActionProgressTracker.tsx:32-43 | Days selected per week: daily 7, weekdays 5, weekly 1 with a day in 0..6 and otherwise 0, custom with no list 0, unknown kind 0. |
| ProgressTracker.CountByWeekday | components/ActionProgressTracker.tsx:25-44 | After creation, counting applicable days across a span is counting the weekdays the rule allows, starting from the span's first weekday. |
| ProgressTracker.WeekCount | components/ActionProgressTracker.tsx:25-44 | Any seven consecutive days after creation contain exactly that many applicable days. |
| ProgressTracker.HasCompletionIff | components/ActionProgressTracker.tsx:443-446 | True exactly when some record has that date key and is marked completed. |
| ProgressTracker.IsCompletedIff | components/ActionProgressTracker.tsx:443-446 | True exactly when some record carries the date's key and `completed = true`. An action with no records is never completed. |
| ProgressTracker.IsCompletedAfterRecord | components/ActionProgressTracker.tsx:443-446 | Appending a record for one day changes that day's status only (it ORs in the new flag). Every other day keeps its status. |
| ProgressTracker.IsCompletedSameDay | components/ActionProgressTracker.tsx:443-446 | Completion depends only on the day, not on the time of day. |
| ProgressTracker.RelevantDays | components/ActionProgressTracker.tsx:47-69 | 38 dates, one day apart and ascending, at now's time of day: 30 past days, today at index 30, then 7 future days. |
| ProgressTracker.RelevantDates | components/ActionProgressTracker.tsx:47-69 | The two loops build exactly that list. |
| ProgressTracker.InTimeframeDays | components/ActionProgressTracker.tsx:416-440 | The week filter keeps day offsets -7..7, the month filter -30..7, and "all" keeps every date. |
| ProgressTracker.FilterRelevantMonth | components/ActionProgressTracker.tsx:429-436 | On the relevant dates, the month filter keeps all 38. |
| ProgressTracker.FilterRelevantWeek | components/ActionProgressTracker.tsx:421-428 | On the relevant dates, the week filter keeps exactly the last 15 (a week back to a week ahead). |
| Calendar.FirstDayOfMonth | components/ActionProgressTracker.tsx:75-78 | `new Date(year, month, 1)` on today's fields is the day `getDate() - 1` days before today: the 1st of its month. |
| Calendar.LastDayOfMonth | components/ActionProgressTracker.tsx:75-79 | `new Date(year, month + 1, 0)` on today's fields is not before today. |
| Calendar.LastDayOfMonthIsLast | components/ActionProgressTracker.tsx:75-79 | `new Date(year, month + 1, 0)` on today's fields is the last day of today's month: it is not before today, it has today's year and month, and the day after it is the 1st of a month. |
| ProgressTracker.SundayOnOrBefore | components/ActionProgressTracker.tsx:82-83 | The start is a Sunday, at most six days before the first day. |
| ProgressTracker.SaturdayOnOrAfter | components/ActionProgressTracker.tsx:86-88 | The end is a Saturday, at most six days after the last day. |
| ProgressTracker.WeekGrid | components/ActionProgressTracker.tsx:81-95 | Consecutive midnights from a Sunday to a Saturday, a multiple of 7 long, covering the first and the last day. |
| ProgressTracker.WeekDates | components/ActionProgressTracker.tsx:81-97 | The `while (current <= endDate)` loop builds exactly that grid. |
| ProgressTracker.MonthGrid | components/ActionProgressTracker.tsx:72-98 | The grid runs from on or before the 1st of today's month to on or after the month's last day (the day `Calendar.LastDayOfMonthIsLast` characterises), and it holds today. |
| ProgressTracker.MonthDates | components/ActionProgressTracker.tsx:72-98 | The loop builds exactly that grid. |
| ProgressTracker.ProgressOf | components/ActionProgressTracker.tsx:457-464 | The record keeps both counts. The percentage is round(completed/total·100): 0 when total is 0, at most 100, exactly 100 when all are done, and 0 when none are. |
| ProgressTracker.CalculateActionProgress | components/ActionProgressTracker.tsx:454-465 | completed ≤ total ≤ number of dates. The percentage is round(completed/total·100): 0 when total is 0, at most 100, exactly 100 when all are done, and 0 when none are. |
| ProgressTracker.TotalZeroIff | components/ActionProgressTracker.tsx:455-457 | total is 0 exactly when no date is applicable. |
| ProgressTracker.AllCompletedIff | components/ActionProgressTracker.tsx:455-457 | completed equals total exactly when every applicable date is completed. |
| ProgressTracker.ActionProgressCounts | components/ActionProgressTracker.tsx:454-465 | total is 0 exactly when no date is applicable. completed equals total exactly when every applicable date is completed. |
| ProgressTracker.HeatLevel | components/ActionProgressTracker.tsx:136-137 | min(4, floor(4c/n)): 4 exactly when all are done, 0 exactly when under a quarter are. |
| ProgressTracker.IntensityOf | components/ActionProgressTracker.tsx:101-140 | Before the goal's creation the result is {0, 0}. The count is at most the number of actions, the intensity is 0..4, and a count of 0 gives intensity 0. |
| ProgressTracker.IntensityCases | components/ActionProgressTracker.tsx:101-140 | When no action counts on the day the result is {0, 0}. Otherwise, from the goal's creation on, the count is the number of counted actions completed that day, and the intensity is min(4, floor(count / counted · 4)): 4 exactly when all are completed. |
| ProgressTracker.CountedNonEmpty | components/ActionProgressTracker.tsx:117-133 | Some action is counted exactly when some action was created by the cell's midnight and applies on the date. |
| ProgressTracker.CountedAllCompleted | components/ActionProgressTracker.tsx:117-133 | Every counted action is completed exactly when every action that counts is completed on the date. |
| ProgressTracker.IntensityFull | components/ActionProgressTracker.tsx:101-140 | Intensity is 4 exactly when the goal already exists, some action counts that day, and every counted action is completed. |
| ProgressTracker.CompletionIntensity | components/ActionProgressTracker.tsx:101-140 | The `forEach` loop computes that intensity. |
| ProgressTracker.FirstMissIsFirst | components/ActionProgressTracker.tsx:470-490 | Every applicable day before the first miss is completed, and the miss itself is applicable and not completed. |
| ProgressTracker.StreakCountsToFirstMiss | components/ActionProgressTracker.tsx:470-490 | The streak counts the applicable days from today back to the first miss. Inapplicable days are skipped without breaking it, and it never exceeds 365. |
| ProgressTracker.StreakBrokenToday | components/ActionProgressTracker.tsx:478-486 | An applicable day that is not completed today gives a streak of 0. |
| ProgressTracker.WalkBack | components/ActionProgressTracker.tsx:474-487 | The loop with `continue` and `break`, over any day tests, computes the streak function of those tests. |
| ProgressTracker.CurrentStreak | components/ActionProgressTracker.tsx:470-490 | `getCurrentStreak` on an action returns exactly that action's streak. |
| Rounding.RoundPercent | components/ActionProgressTracker.tsx:458 | The rounded percentage p satisfies 2np ≤ 200k + n < 2n(p+1), i.e. `Math.round(k/n·100)`. |
| Rounding.RoundPercentRange | components/ActionProgressTracker.tsx:458 | That percentage is in 0..100, 100 when k = n, and 0 when k = 0. |
| Rounding.RoundPercentMonotone | lib/utils/goalUtils.ts:92-93 | More completed items never give a lower percentage. |
| GoalUtils.IsGoalOverdue | lib/utils/goalUtils.ts:7-18 | Overdue exactly when there is a target, the goal is not completed, and the target day is before today. |
| GoalUtils.OverdueDays | lib/utils/goalUtils.ts:23-37 | Never negative. Positive exactly when the goal is overdue, and then equal to today's day minus the target day. |
| GoalUtils.OverdueDaysGrow | lib/utils/goalUtils.ts:23-37 | k days later an overdue goal is k more days overdue. |
| GoalUtils.IsActionOverdue | lib/utils/goalUtils.ts:49-75 | Overdue exactly when the goal is overdue, the action applies on the target day, and it was not completed then. The `date` argument plays no part. |
| GoalUtils.AnyCompleted | lib/utils/goalUtils.ts:89 | True exactly when some record is marked completed. |
| GoalUtils.CalculateGoalProgress | lib/utils/goalUtils.ts:81-94 | 0 with no actions. Otherwise round(k/n·100), where k counts actions with a completed record. Always 0..100. |
| GoalUtils.GoalProgressExtremes | lib/utils/goalUtils.ts:81-94 | All actions completed gives 100, none gives 0. |
| GoalUtils.GoalProgressMonotone | lib/utils/goalUtils.ts:81-94 | Completing more actions never lowers goal progress. |
| GoalUtils.OneOfFourIsQuarter | lib/utils/goalUtils.ts:81-94 | One completed action of four gives 25. |
| GoalCard.TimeProgress | components/GoalCard.tsx:13-36 | 0 with no target. 100 for a target before the start. 0 for zero duration. Otherwise 0 until the start, 100 from the target on, and in between round(elapsed/total·100). |
| GoalCard.TimeProgressMonotone | components/GoalCard.tsx:13-36 | Time progress never decreases as time passes. |
| GoalStore.Migrate | lib/useGoals.ts:24-33 | A goal with `habits` and no `actions` moves `habits` into `actions` and drops `habits`. Any other goal is unchanged. Afterwards `actions` is present exactly when either field was. |
| GoalStore.MigrateIdempotent | lib/useGoals.ts:24-33 | Migrating twice is migrating once. |
| GoalStore.FindIndex | lib/useGoals.ts:36 | The index of the first goal with the id, or -1 when there is none. |
| GoalStore.DedupeProperties | lib/useGoals.ts:35-37 | Ids are distinct, every input id survives, each survivor is the first goal with its id, and the result is an order-preserving subsequence of the input. |
| GoalStore.KeepFirstDistinctIdentity | lib/useGoals.ts:35-37 | A list whose ids are already distinct is left as it is. |
| GoalStore.DedupeIdempotent | lib/useGoals.ts:35-37 | Removing duplicates twice is removing them once. |
| GoalStore.SeedAsWrittenNeverApplies | lib/useGoals.ts:46-76 | As written, neither example action applies on any day, and the "weekly" one is labelled "Daily". |
| GoalStore.SeedApplies | lib/useGoals.ts:46-76 | With real rules, both example actions belong to their goals, have valid rules and apply on their creation day. The weekly one is labelled with its weekday. |
| GoalStore.SeedWeeklyCounts | lib/useGoals.ts:46-76 | With real rules, in any week after their creation the daily example action applies on 7 days and the weekly one on 1. |
| GoalStore.WithGoalCreated | lib/useGoals.ts:98-107 | One goal with no actions is appended, and the existing goals are untouched. |
| GoalStore.ApplyGoalPatchIdempotent | lib/useGoals.ts:111 | Merging the same partial goal twice is merging it once. |
| GoalStore.WithGoalUpdated | lib/useGoals.ts:109-113 | The length is kept. Goals with the id get the patch merged in, and all others are unchanged. |
| GoalStore.UpdateGoalIdempotent | lib/useGoals.ts:109-113 | Updating twice with the same data is updating once. |
| GoalStore.WithGoalDeleted | lib/useGoals.ts:115-117 | No goal with the id remains. |
| GoalStore.DeleteGoalKeepsOthers | lib/useGoals.ts:115-117 | Every other goal keeps its multiplicity, and the result is an order-preserving subsequence. |
| GoalStore.FindGoal | lib/useGoals.ts:119-121 | None exactly when no goal has the id. Otherwise the first goal with it. |
| GoalStore.GetAfterCreateAndDelete | lib/useGoals.ts:98-121 | A goal created under a fresh id is then found; once it is deleted, it is not. |
| GoalStore.WithActionAdded | lib/useGoals.ts:123-137 | Only goals with the id get the new action appended, carrying that goal's id. Every other goal is unchanged. |
| GoalStore.UpdateActions | lib/useGoals.ts:145-147 | Only the action with the id gets the patch merged in. The length and the other actions are unchanged. |
| GoalStore.WithActionUpdated | lib/useGoals.ts:139-152 | Only the matching action inside the matching goal changes. |
| GoalStore.WithActionDeleted | lib/useGoals.ts:154-162 | Only the matching goal loses its actions with the id. Every other goal is unchanged. |
| GoalStore.OperationsKeepOwnership | lib/useGoals.ts:98-162 | If every action carries its goal's id, then creating a goal, adding an action, updating one (without moving it to another goal) and deleting one all keep that true. |
| GoalStore.GoalOperationsKeepOwnership | lib/useGoals.ts:109-117 | If every action carries its goal's id, then deleting a goal, and updating one without changing its id or its actions, keep that true. |
| GoalStore.GoalStoreState.Load | lib/useGoals.ts:18-85 | Stored data: migrated and de-duplicated. Nothing stored: the example goals as written, with bare-string recurrences that never apply. Unparsable data: the goals are left as they were. Loading ends in every case. |
| GoalStore.GoalStoreState.CreateGoal | lib/useGoals.ts:98-107 | The state becomes the append, and the new goal is returned. |
| GoalStore.GoalStoreState.UpdateGoal | lib/useGoals.ts:109-113 | The state becomes the merged update. |
| GoalStore.GoalStoreState.DeleteGoal | lib/useGoals.ts:115-117 | The state becomes the filtered list. |
| GoalStore.GoalStoreState.GetGoal | lib/useGoals.ts:119-121 | None exactly when no goal has the id; otherwise the first goal with it. |
| GoalStore.GoalStoreState.AddAction | lib/useGoals.ts:123-137 | The state becomes the list with the action added. |
| GoalStore.GoalStoreState.UpdateAction | lib/useGoals.ts:139-152 | The state becomes the list with the action updated. |
| GoalStore.GoalStoreState.DeleteAction | lib/useGoals.ts:154-162 | The state becomes the list with the action removed. |
| TodoList.SortTodosCorrect | components/TodoList.tsx:137-142 | Completed items come first, the result is a permutation, and order within each group is kept. Any list with those three properties is the sorted one, so the stable sort's result is unique. |
| TodoList.SortIsPartition | components/TodoList.tsx:34-39 | The stable completed-first sort equals the completed items followed by the open ones, each group in input order. |
| TodoList.Toggled | components/TodoList.tsx:31-33 | Only items with the id change, and only in `completed`. The ids and their order are kept. |
| TodoList.ToggledTwice | components/TodoList.tsx:31-33 | Toggling twice restores the list. |
| TodoList.ToggleKeepsIds | components/TodoList.tsx:31-40 | Toggle-and-sort keeps the multiset of ids. |
| Strings.TrimShape | components/TodoList.tsx:43-46 | `trim()` returns a contiguous piece of the input with only whitespace cut from either end, and the result neither starts nor ends with whitespace. |
| Strings.TrimEmpty | components/TodoList.tsx:43 | The trimmed text is empty exactly when the input is all whitespace. |
| TodoList.AddTodoShape | components/TodoList.tsx:42-61 | Exactly one open item with the trimmed, non-empty text is added. The sorted result is the completed items, the open items, then the new one. |
| TodoList.SavedText | components/TodoList.tsx:70 | The trimmed edit, or the old text when the trimmed edit is empty. |
| TodoList.Edited | components/TodoList.tsx:68-71 | Only items with the id change, and only in their text. |
| TodoList.EditedProperties | components/TodoList.tsx:68-71 | A blank edit changes nothing, and saving the same edit twice is saving it once. |
| TodoList.WithoutTodo | components/TodoList.tsx:82-84 | No item with the id remains. |
| TodoList.WithoutTodoKeepsOthers | components/TodoList.tsx:82-84 | Every other item keeps its multiplicity, and the result is an order-preserving subsequence. |
| TodoList.TodoListState.ToggleTodo | components/TodoList.tsx:31-40 | The state becomes the sorted toggle, and nothing else changes. |
| TodoList.TodoListState.AddTodo | components/TodoList.tsx:42-61 | A blank input changes nothing. Otherwise the item is added and the input cleared. |
| TodoList.TodoListState.StartEditing | components/TodoList.tsx:63-66 | Editing starts on that item with its text. |
| TodoList.TodoListState.SetEditingText | components/TodoList.tsx:199 | The edited text becomes the input, and nothing else changes. |
| TodoList.TodoListState.SetNewTodo | components/TodoList.tsx:268 | The new-item text becomes the input, and nothing else changes. |
| TodoList.TodoListState.SaveEdit | components/TodoList.tsx:68-80 | The edit is saved and sorted, and editing ends. |
| TodoList.TodoListState.DeleteTodo | components/TodoList.tsx:82-84 | The state becomes the filtered list. |
| TodoList.TodoListState.DeleteWithConfirmation | components/TodoList.tsx:86-90 | The item is deleted only when the user confirms. |
| TodoList.TodoListState.HandleKeyDown | components/TodoList.tsx:92-109 | Enter on the item being edited saves it and ends editing. Otherwise, in input mode, Enter adds the input and clears it, or does nothing when the input is blank. Escape cancels the edit, and otherwise leaves input mode with the input cleared. Other keys, and keys outside input mode and editing, change nothing. Each branch keeps every field it does not set. |
| TodoList.TodoListState.HandlePlusKey | components/TodoList.tsx:112-126 | "+" outside a text field turns input mode on, and nothing else changes. |
| TodoList.TodoListState.SortedTodos | components/TodoList.tsx:137-142 | The displayed list is completed-first, a permutation of the state's todos, and keeps the order within the completed and within the open items. |
| HomePage.ActionItemCompletion | app/home/page.tsx:49-54 | A day item is completed exactly when its action is completed on that day. |
| HomePage.ActionItemsMembers | app/home/page.tsx:45-60 | A goal's day items are exactly the items of its actions that apply on the day. |
| HomePage.DayItemsMembers | app/home/page.tsx:44-61 | The day's items are exactly the items of applicable actions of any goal. |
| HomePage.DayItemsConcat | app/home/page.tsx:44-61 | Items come in goal order, then action order within each goal. |
| HomePage.CollectGoalItems | app/home/page.tsx:45-60 | The inner loop over a goal's actions builds exactly that goal's items, in action order. |
| HomePage.CollectDayItems | app/home/page.tsx:44-61 | The outer loop over the goals builds exactly the day's items, in goal order. |
| HomePage.ActionsForSelectedDate | app/home/page.tsx:36-64 | The day's items at the selected day's midnight and key, or none while the goals load. |
| HomePage.AllTodosCorrect | app/home/page.tsx:67-80 | The merged list is a permutation of (todos without an action link) ++ (day items), completed first, with order kept within each group. |
| HomePage.FindOriginal | app/home/page.tsx:131-133 | None exactly when no item has the same action and goal ids. Otherwise the first item with those ids. |
| HomePage.CollectToggleRequests | app/home/page.tsx:128-145 | The `forEach` over the edited items records exactly the toggle calls `ToggleRequests` specifies, in list order. |
| HomePage.RequestsAreChanges | app/home/page.tsx:128-145 | Every recorded completion toggle is for a linked item whose flag differs from its original. It carries the new flag and the selected day's key. |
| HomePage.UnchangedNoRequests | app/home/page.tsx:128-145 | Handing back the day items unchanged records no toggle. |
| HomePage.FindOriginalSelf | app/home/page.tsx:131-133 | With distinct links, each item is its own original. |
| HomePage.DayProgress | app/home/page.tsx:149-151 | 0 for an empty list. Otherwise p·n = 100·c, within 0..100, and exactly 100 when all are done. |
| HomePage.DayProgressFull | app/home/page.tsx:149-151 | Progress is within 0..100, and equals 100 exactly when the list is non-empty and every item is completed. |
| HomePage.ConfettiMeansAllDone | app/home/page.tsx:202-214 | The confetti fires exactly when today is shown, the previous progress was below 100, and the non-empty list is all done. |
| HomePage.HomePageState.LoadTodos | app/home/page.tsx:83-104 | A non-empty stored list is used. Anything else (nothing stored, unparsable, not a list, empty) gives the default todos. Loading ends in every case. |
| HomePage.HomePageState.HandleTodosChange | app/home/page.tsx:118-146 | The loop keeps exactly the unlinked items, in order, and records exactly the requests `ToggleRequests` gives. |
| HomePage.HomePageState.ConfettiEffect | app/home/page.tsx:202-214 | The counter advances exactly when the confetti fires, and the previous progress is updated. |
| HomePage.HomePageState.DirectionEffect | app/home/page.tsx:162-173 | A later date means down and an earlier one up; an equal date keeps the direction. The previous date is updated. |
| HomePage.HomePageState.HandleNavKey | app/home/page.tsx:176-199 | Alt+ArrowUp or Alt+ArrowDown outside a text field moves one day back or forward. |
| HomePage.HomePageState.SetSelectedDate | app/home/page.tsx:265-272 | `onDateChange` sets the selected date, and nothing else changes. |
| RecurrenceDialog.WeeklyCaption | components/ActionRecurrenceDialog.tsx:140 | A caption exists exactly for a weekday 0..6, and it is that day's name. |
| RecurrenceDialog.DaysTable | components/ActionRecurrenceDialog.tsx:22-30 | The table lists the days 0..6 in order, under the names the recurrence labels use. |
| RecurrenceDialog.JsSort | components/ActionRecurrenceDialog.tsx:60 | The default sort returns a permutation of its input. |
| RecurrenceDialog.StringOrderIsNotNumberOrder | components/ActionRecurrenceDialog.tsx:60 | The default sort compares decimal strings: it puts 10 before 2. |
| RecurrenceDialog.ToggleDayMembers | components/ActionRecurrenceDialog.tsx:58-62 | Toggling flips the toggled day's membership and no other. |
| RecurrenceDialog.ToggleDayIncreasing | components/ActionRecurrenceDialog.tsx:58-62 | A strictly increasing list of weekdays (sorted, no duplicates) stays so. |
| RecurrenceDialog.ToggleDayTwice | components/ActionRecurrenceDialog.tsx:58-62 | Pressing the same day twice restores that list. |
| RecurrenceDialog.Opened | components/ActionRecurrenceDialog.tsx:43-56 | With an initial rule: its kind, its custom days or [], and its weekly day or today's weekday. Without one: daily, [], today's weekday. |
| RecurrenceDialog.BuildRecurrence | components/ActionRecurrenceDialog.tsx:64-87 | Nothing exactly for a custom rule with no days. Otherwise a rule of the selected kind (an unknown kind gives daily), carrying the weekly day only when weekly and the custom days only when custom. |
| RecurrenceDialog.ConfirmDisabledIffNothingBuilt | components/ActionRecurrenceDialog.tsx:213-216 | The confirm button is disabled exactly when confirming would build nothing. A built rule from in-range days is valid. |
| RecurrenceDialog.ReopenRebuilds | components/ActionRecurrenceDialog.tsx:43-90 | Reopening the dialog on the rule it built and confirming again builds the same rule. |
| RecurrenceDialog.ReopenRestoresForm | components/ActionRecurrenceDialog.tsx:43-90 | Reopening on a built rule restores the kind, plus the weekly day or the custom days that kind uses. |
| RecurrenceDialog.ConfirmEvents | components/ActionRecurrenceDialog.tsx:77-90 | No calls after the early return. Otherwise `onConfirm(rule)`, then `onOpenChange(false)`. |
| RecurrenceDialog.DialogState.OpenEffect | components/ActionRecurrenceDialog.tsx:43-56 | While open, the form is reloaded. While closed, it is kept. |
| RecurrenceDialog.DialogState.SelectKind | components/ActionRecurrenceDialog.tsx:112-150 | A radio button sets the kind and leaves the rest of the form. |
| RecurrenceDialog.DialogState.SelectWeeklyDay | components/ActionRecurrenceDialog.tsx:166 | The weekday select sets the weekly day and leaves the rest of the form. |
| RecurrenceDialog.DialogState.HandleDayToggle | components/ActionRecurrenceDialog.tsx:58-62 | Only the custom days change, to the toggled list. |
| RecurrenceDialog.DialogState.HandleConfirm | components/ActionRecurrenceDialog.tsx:64-90 | The calls made are those for the rule built from the current form. |
| RecurrenceDialog.DialogState.HandleCancel | components/ActionRecurrenceDialog.tsx:209-211 | Cancel only asks the parent to close the dialog. |
| DateNavigator.DayOffset | components/DateNavigator.tsx:27 | The rounded difference of the two midnights, in days, is the difference of their day numbers. |
| DateNavigator.RelativeLabelCases | components/DateNavigator.tsx:29-41 | A phrase is shown exactly within the window. "Today", "Tomorrow" and "Yesterday" are shown exactly for 0, 1 and -1. Outside the window the short date is shown. |
| DateNavigator.RelativeLabelInjective | components/DateNavigator.tsx:29-35 | Inside the window the phrase names the offset: no other offset, inside or outside the window, gets the same label. |
| DateNavigator.ShortDateOmitsYear | components/DateNavigator.tsx:36-41 | The short date shows no year: 2026-10-01 and 2020-10-01 both read "Thu, Oct 1". |
| DateNavigator.SameLabelDifferentYears | components/DateNavigator.tsx:21-42 | Seen from 2026-10-14, those two days lie outside the window and get the same label. |
| DateNavigator.IsTodayLabel | components/DateNavigator.tsx:13-19 | `isToday` holds exactly when the selected day is today's day, which is exactly when the label is "Today". |
| DateNavigator.GoToPreviousDay | components/DateNavigator.tsx:44-67 | Moves back one day exactly when the selected day is after today−reach; the result is never before today−reach. The desktop navigator uses a reach of 10. |
| DateNavigator.GoToNextDay | components/DateNavigator.tsx:69-92 | Moves forward one day exactly when the selected day is before today+reach; the result is never after today+reach. The desktop navigator uses a reach of 10, the mobile one 7. |
| DateNavigator.ArrowsEnabledIffMove | components/DateNavigator.tsx:94-118 | For any reach, each arrow is enabled exactly when pressing it moves the date. |
| DateNavigator.NavigationStaysInWindow | components/DateNavigator.tsx:44-92 | From inside the ±reach window, the arrows stay inside it, and one step back then forward (or forward then back) returns to the same moment. |
| DateNavigator.BackToToday | components/DateNavigator.tsx:182-192 | The button appears exactly when another day is selected, and it selects today's midnight. |
| DateNavigatorMobile.LabelsAgreeWithinWeek | components/DateNavigatorMobile.tsx:27-41 | Within ±7 days both navigators show the same label. From 8 to 10 days away only the desktop one shows a phrase. |
| DateNavigatorMobile.FormatDateDisplayInjective | components/DateNavigatorMobile.tsx:21-35 | Within a week of today the label names the day: no other day gets the same label. |
| DateNavigatorMobile.GoToPreviousDay | components/DateNavigatorMobile.tsx:44-48 | Always exactly one day back, at the same time of day. |
| DateNavigatorMobile.PressPreviousUnbounded | components/DateNavigatorMobile.tsx:44-48 | k presses go back exactly k days, for every k: the up arrow has no bound. |
| DateNavigatorMobile.SameLabelDifferentDays | components/DateNavigatorMobile.tsx:21-48 | Because the up arrow has no bound, two days with the same label are both reachable: from 2026-10-14, 13 and 2204 presses reach 2026-10-01 and 2020-10-01, and both read "Thu, Oct 1". |
| DateNavigatorMobile.ForwardEnabledIffMoves | components/DateNavigatorMobile.tsx:50-86 | The down arrow is enabled exactly when pressing it moves the date, which happens exactly when the selected day is before today+7. The move is one day forward, and never past today+7. |
| DateNavigatorMobile.ForwardBoundKept | components/DateNavigatorMobile.tsx:44-73 | Back then forward returns to the same moment whenever the selected day is within the bound, and forward then back always does. |

## Left out

- Persistence: the goal store's and the home page's load and save side effects, and the `localStorage` writes. Loading takes the read result as a parameter (`GoalStore.StorageRead`, `HomePage.TodoRead`). Saving is not modelled.
- Id generation (`Date.now()` and `Math.random()`) and the current time: both are parameters.
- Time zones and daylight saving: every local day is exactly 86 400 000 ms, and a `YYYY-MM-DD` string parsed by `new Date` is taken to be local midnight.
- Invalid dates (`NaN` timestamps) and non-string stored fields: timestamps are always integers.
- `toLocaleDateString` output: the model keeps the fields the short date shows (`DateNavigator.ShortDate`: weekday, month, day of the month), not the rendered text.
- Floating point: percentages are exact integers or reals. `Math.round` is taken on the exact ratio, so representation error at .5 boundaries is not modelled.
- `toggleActionCompletion`: its own upsert is not part of the shown store. The home page records each call as a `HomePage.ToggleRequest`.
- `isActionApplicableOnDay`, `isActionCompletedOnDate` and `formatDate` of `lib/utils/actionUtils.ts` are not part of the shown file. They are modelled by the tracker's `IsApplicable`, `HasCompletion` and `FormatDate`.
- A stored goal with neither `actions` nor `habits` is read with an empty action list (`GoalStore.AsGoal`), where the code would later fail on `goal.actions`.
- The home page imports a `Todo` type and `TodoList` props that the shown `TodoList.tsx` does not declare. The model uses one todo record with optional `actionId`, `goalId` and `goalTitle`.
- Rendering, animations, focus timeouts, `preventDefault` and the keyboard-listener registration.
- `RecurrenceDialog.ToggleDayIncreasing` and `RecurrenceDialog.ToggleDayTwice` assume the days are 0..6. The default sort orders decimal strings, which coincides with number order only on single digits.
- `DateNavigator.GoToPreviousDay`, `DateNavigator.GoToNextDay` and `DateNavigatorMobile.GoToNextDay` return the new date rather than calling `onDateChange`.

## Findings

| source | as written | input that shows it | evidently intended | confidence | as-written member | corrected member |
|---|---|---|---|---|---|---|
| lib/useGoals.ts:55 | The example actions store `recurrence: 'daily'` and `recurrence: 'weekly'` as bare strings. Their `.type` is undefined, so `isDateApplicable` falls to `default` and returns false. | The first load with nothing stored (`GoalStore.GoalStoreState.Load` installs the goals as written): neither example action ever applies, and the "weekly" one is labelled "Daily". | Real rules: `{type: 'daily'}`, and a weekly rule on the weekday of creation (the day the dialog proposes). | not executed | GoalStore.SeedAsWrittenNeverApplies | GoalStore.SeedWeeklyCounts |
