# Kanban task manager — a verified model of its core

A single-user task manager keeps tasks in a SQLite table and shows them on a
Kanban board with four columns: To Do, In Progress, Blocked and Done. Each
task has a title, an optional description, a status, a priority, an
optional due date and time, comma-separated labels, and a `position` that
orders the task inside its status column. This project models the parts
that carry logic:

- the position bookkeeping of the store (`database.py`): adding, editing,
  moving and deleting tasks, and the sorted read of the whole table;
- the due-date badge, urgency class and colour maps (`utils.py`);
- input validation, sanitising and label normalisation (`validation.py`);
- the board's filter chain, quick filters, the "→" button's next status and
  the once-per-session action guard (`app.py`);
- the dashboard counts (`analytics.py`).

Files and modules:

| file | module | contents |
|---|---|---|
| `tasks.dfy` | `Tasks` | the task row, due-date and due-time fields, the status and priority names |
| `strings.dfy` | `Strings` | `split`, `join`, `strip`, `lower`, substring search, decimal text |
| `dates.dfy` | `Dates` | Python's proleptic Gregorian day ordinals, weekdays, end of week and month |
| `database.dfy` | `Database` | the table as a class over a sequence of rows; `Dense` partitions; the sorted read |
| `utils.dfy` | `Utils` | colours, `calculate_due_status`, `get_urgency_class` |
| `validation.dfy` | `Validation` | `validate_task_input`, `sanitize_input`, `validate_labels` |
| `board.dfy` | `Board` | the filter chain, quick filters, next status, `perform_action`, `move_task` |
| `analytics.dfy` | `Analytics` | `generate_task_counts` |

Conventions of the model:

- Dates are day ordinals as `date.toordinal()` gives them (0001-01-01 is
  day 1, a Monday).
- Times of day are minutes after midnight.
- "Now" is a parameter `nowSec`: integer seconds on the same local clock,
  with midnight of day `d` at `d * 86400`. Today is `nowSec / 86400`.
- Whether a stored date or time string parses is decided when the value is
  built. `DateField` (`Absent | Day | Text`) and `TimeField`
  (`NoTime | At | BadTime`) carry the outcome instead of the text.
- SQLite is replaced by `TaskTable`. Its `rows` field is a sequence in rowid
  order, and its `nextId` field is the AUTOINCREMENT counter.
- The clock, today's date and the clock second inside an action id are all
  parameters.

Where the code and its description disagree, the model follows the code:

- `update_task` writes whatever status the form carries but keeps the old
  position. So an edit that changes the status can break the "positions
  1..N" invariant (`EditStatusChangeBreaksDense`).
- A move to the same status breaks the invariant too
  (`SameStatusMoveBreaksDense`). The board never asks for such a move
  (`NextStatus`, `PressNext`).
- `get_tasks` returns a column-less `pd.DataFrame()` when one row has a
  parseable date next to a non-empty unparseable time: building the combined
  timestamp raises. The model reads that as `None`, apart from `Some([])` for
  an empty table, because every later column access on it raises.
- A missed timed deadline reports `abs(timedelta.days)`. That is the
  elapsed days rounded up, so a deadline missed by one minute reports 1 day.
- The "Low" priority gets the same gray as an unknown priority.
- `validate_task_input` reports a past due date as the "Warning: …" message
  among the errors.

## Model

| member | source | states |
|---|---|---|
| Strings.Split | validation.py:72 | `str.split(sep)` always yields at least one piece, and no piece contains the separator |
| Strings.JoinSplit | validation.py:72-84 | joining the pieces of a split with the same separator gives the text back |
| Strings.SplitJoin | validation.py:84 | splitting a join of separator-free pieces gives exactly those pieces back |
| Strings.ContainsWitness | app.py:515-521 | a substring match has an offset where the slice equals the query |
| Strings.ContainsAt | app.py:515-521 | a slice equal to the query at any offset is a substring match |
| Strings.ShowNatValue | app.py:51 | the decimal text of a number reads back as that number |
| Strings.ShowNatInjective | app.py:51 | distinct numbers have distinct decimal texts |
| Dates.AddDaysOrdinal | app.py:550-551 | adding n days with `timedelta` adds n to the day ordinal |
| Dates.NextDayOrdinal | app.py:551 | the day after a valid date is valid, and its ordinal is one more |
| Dates.ThirtyTwoDaysLater | app.py:550 | 32 days after the first of a month is always in the next month |
| Dates.EndOfMonth | app.py:550-551 | `replace(day=1) + 32 days`, then `replace(day=1) - 1 day`, is the ordinal of the last day of today's month, and it is not before today |
| Dates.EndOfWeek | app.py:544 | `today + (6 - weekday)` is a Sunday, within six days of today, with no Sunday before it |
| Dates.FirstDayIsMonday | app.py:544 | ordinal 1 is 0001-01-01 and a Monday, which fixes the weekday numbering |
| Database.IndexOf | database.py:142-143 | the id lookup answers None exactly when no row has the id; otherwise it is the first row with it |
| Database.NextPositionDense | database.py:35-37 | on a dense partition of N rows, `MAX(position) + 1` (or 1) is N + 1 |
| Database.AddKeepsDense | database.py:35-48 | appending a row at the next position keeps every dense partition dense |
| Database.DeleteKeepsDense | database.py:162-179 | closing the gap and removing the row keeps every dense partition dense |
| Database.MoveKeepsDense | database.py:136-160 | a move to a different status keeps every dense partition dense, both the old and the new one |
| Database.MoveKeepsAllDense | database.py:136-160 | the same for all partitions at once |
| Database.SameStatusMoveBreaksDense | database.py:142-157 | a move to the row's own status reads the next position before closing the gap, leaving positions 1..N-1 and N+1: the partition is no longer dense |
| Database.EditUnknownId | database.py:121-131 | an update of an unknown id changes no row |
| Database.EditStatusChangeBreaksDense | database.py:121-131 | an edit that changes the status keeps the old position; a dense partition it joins gets a duplicate when that position is at most the partition's size, and the dense partition it leaves gets a gap when the row was not its last |
| Database.KeyLeTotalOrder | database.py:74-85 | the read's sort key (status category, then due moment, missing last) is a total order |
| Database.StatusRank | database.py:82-84 | To Do ranks 0, In Progress 1, Blocked 2, Done 3, and any other status 4, after all four |
| Database.Shown | database.py:69-70 | reading a row turns an unparseable date into a missing one and a missing time into "", without changing its sort key |
| Database.InsertSorted | database.py:81-85 | inserting into a sorted sequence keeps it sorted |
| Database.InsertWithKey | database.py:81-85 | the inserted row goes in front of the rows with its key and leaves other keys alone |
| Database.SortByKey | database.py:81-85 | the sort yields a sorted permutation of its input |
| Database.SortStable | database.py:81-85 | the sort is stable: the rows of each key keep their table order |
| Database.ReadTasks | database.py:59-96 | the read fails (the column-less frame) exactly when one row has an unreadable date and time; a successful read is empty exactly when the table is |
| Database.ReadOrder | database.py:69-89 | with no unreadable row the read succeeds; every row is read once, sorted by (category, due moment): categories ascend, undated rows come last within a category, dates and then times ascend, ties keep table order |
| Database.TaskTable.constructor | database.py:5-26 | a new table has no rows and the id counter at 1 |
| Database.TaskTable.FindRow | database.py:142-143 | the loop finds the index `IndexOf` names |
| Database.TaskTable.MaxPositionIn | database.py:35-36 | the loop computes `MAX(position)` of the partition, None when it is empty |
| Database.TaskTable.ShiftDown | database.py:151-152 | the loop lowers by one the position of each row of the status above the given position, and nothing else |
| Database.TaskTable.AddTask | database.py:28-57 | a formattable form appends one row with a fresh id at the end of its partition and keeps dense partitions dense; a missing date or time changes nothing |
| Database.TaskTable.UpdateTask | database.py:110-134 | overwrites the form fields of the rows with the id and leaves position untouched; a missing date or time changes nothing |
| Database.TaskTable.UpdateTaskStatus | database.py:136-160 | an unknown id fails and changes nothing; otherwise the row moves to the end of the new partition, the old gap closes, and a change of status keeps dense partitions dense |
| Database.TaskTable.DeleteTask | database.py:162-179 | an unknown id fails and changes nothing; otherwise the row is removed and its partition's gap closes |
| Utils.StatusColors | utils.py:7-14 | a status is gray exactly when it is not one of the four, and the four get four different colours |
| Utils.PriorityColors | utils.py:16-23 | gray exactly for priorities other than Critical, High and Medium (Low included); the rest differ |
| Utils.CalculateDueStatus | utils.py:25-69 | the badge is gray exactly when there is no parseable date or the time does not parse; gray has no text and no days, and displays nothing for a missing date and the date argument as given otherwise; days are never negative |
| Utils.EmptyTimeIsNoTime | utils.py:38 | an empty time string takes the date-only branch, as a missing time does |
| Utils.DateOnlyBands | utils.py:58-67 | without a time: red with the days late when overdue, amber "Due Today" or due within two days, green later |
| Utils.TimedOverdueDays | utils.py:43-44 | a missed timed deadline is red "Overdue" with the elapsed days rounded up |
| Utils.TimedDueToday | utils.py:45-51 | on the due day: under an hour is red and counts whole minutes, otherwise amber and counts whole hours |
| Utils.TimedLaterDay | utils.py:52-57 | a timed deadline on a later day is at least a day away, amber within two days, green after |
| Utils.DateOnlyMonotone | utils.py:58-67 | a later due date never gets a more alarming colour |
| Utils.TimedMonotone | utils.py:38-57 | a later due instant never gets a more alarming colour |
| Utils.UrgencyAgreesWithBadge | utils.py:71-87 | without a time, urgent, soon, future and no class match red, amber, green and gray |
| Utils.UrgencyIgnoresTime | utils.py:71-87 | with a time the two can disagree: a deadline missed earlier today is red but only "task-soon" |
| Utils.ExampleYesterday | utils.py:59-61 | yesterday's date reads red "Overdue", 1 day |
| Utils.ExampleToday | utils.py:62-63 | today's date reads amber "Due Today" |
| Utils.ExampleInTwoAndThreeDays | utils.py:64-67 | two days ahead is amber, three days ahead is green |
| Utils.ExampleThirtyMinutes | utils.py:46-49 | half an hour ahead today reads red "Due in 30 minutes!" |
| Validation.MessageOfText | validation.py:10-49 | every error text reads back as its message, so the texts identify the checks |
| Validation.MessageTextsDiffer | validation.py:10-49 | different messages have different texts |
| Validation.FailingMembers | validation.py:4-51 | a message is among the first k reports exactly when its check is among the first k and fails |
| Validation.FailingOrdered | validation.py:4-51 | the reports come in the order the checks run, each at most once |
| Validation.AcceptedIffNothingFails | validation.py:4-51 | the input is acceptable exactly when no check fails |
| Validation.FailingSpec | validation.py:4-51 | no report exactly when the input is acceptable; a message is reported exactly when its check fails; reports are in check order |
| Validation.ValidateTaskInput | validation.py:4-51 | the appends produce exactly the failing checks' messages in check order |
| Validation.AfterClose | validation.py:59 | the text after the first '>' exists exactly when the text has a '>' |
| Validation.StripTagsChars | validation.py:59 | every character kept was in the input |
| Validation.StripTagsNoTags | validation.py:59 | after tag removal no '<' is followed by a '>' |
| Validation.StripTagsUnchanged | validation.py:59 | a text without '<' is unchanged |
| Validation.UndoubleDoubles | validation.py:62 | doubling quotes can be undone, and it adds one character per quote |
| Validation.DoubleQuotesUnchanged | validation.py:62 | a text without quotes is unchanged |
| Validation.SanitizeSpec | validation.py:53-64 | undoing the doubled quotes of the result gives the tag-free text, which has no tag left |
| Validation.SanitizeUnchanged | validation.py:53-64 | a text with neither '<' nor a quote passes through unchanged |
| Validation.SanitizeNotIdempotent | validation.py:53-64 | sanitising twice doubles quotes twice |
| Validation.LabelSetIsGoodPieces | validation.py:72-82 | a label is accepted exactly when it is a non-empty stripped piece that passes the length and character check |
| Validation.GoodLabelIsStripped | validation.py:81 | an accepted label has no surrounding space and no comma |
| Validation.LabelSetOfJoin | validation.py:84 | joining accepted labels splits back into them, and reads back as the same set |
| Validation.EmptyLabelSet | validation.py:68-69 | empty input has no labels |
| Validation.SomeLabelsKept | validation.py:79-84 | a non-empty join of accepted labels is non-empty and splits back into them |
| Validation.SameLabelSet | validation.py:72-84 | a text that splits into accepted labels reads as the set of those labels |
| Validation.KeepWhere | validation.py:76-82 | the loop over the de-duplicated set keeps each member that passes, exactly once |
| Validation.ValidateLabels | validation.py:66-84 | the result is empty exactly when nothing is accepted; otherwise it lists each accepted label once; applied again it yields the same set |
| Board.KeepMembers | app.py:513-555 | a mask keeps a row exactly when the row was there and the mask holds |
| Board.KeepAppend | app.py:513-555 | masking commutes with concatenation, so kept rows keep their order |
| Board.KeepBoth | app.py:513-555 | masking twice is masking once with both conditions |
| Board.KeepEverything | app.py:515-537 | a skipped step leaves the rows as they are |
| Board.ApplyFilters | app.py:513-555 | the step-by-step narrowing equals one mask with all four steps, and keeps a row exactly when that mask holds |
| Board.FieldHasMeaning | app.py:518-520 | a present field matches when the lowercased query occurs in the lowercased field; a missing field never matches |
| Board.SearchMeaning | app.py:515-521 | search keeps a row when the query occurs, case aside, in its title, description or labels |
| Board.FilterMeaning | app.py:513-555 | a row is shown exactly when it passes search, status, priority and date steps, and an empty box or selection imposes nothing |
| Board.DatePrecedence | app.py:530-537 | "No Due Date" keeps only missing dates; otherwise a forward custom range, both ends included; otherwise the bucket |
| Board.BucketMeaning | app.py:537-555 | Overdue is before today, Due Today is today, Due This Week runs through the coming Sunday, Due This Month through the month's last day |
| Board.UndatedRows | app.py:530-555 | a row without a date passes the date step only under "No Due Date" or no date filter at all |
| Board.ReadRowsMissingDue | app.py:531 | on rows of a successful read, "missing" and "no due day" coincide |
| Board.QuickCriteria | app.py:449-469 | a quick filter sets no status, no custom range and the search box as typed |
| Board.QuickFilterMeaning | app.py:459-469 | each quick filter keeps exactly the rows it is named after, and any other choice keeps all |
| Board.NextStatus | app.py:666-685 | To Do goes to In Progress, In Progress to Done, Done to To Do and Blocked to In Progress: a board status, never Blocked, never the card's own |
| Board.NextStatusCycle | app.py:666-684 | To Do, In Progress and Done form a cycle of three in that direction; Blocked joins it at In Progress |
| Board.ActionGuard.constructor | app.py:29-30 | a session starts with no recorded action |
| Board.ActionGuard.Perform | app.py:32-46 | the action runs exactly when its id is new, and the id is recorded |
| Board.RunsFirstTime | app.py:32-46 | in a series of requests, one runs exactly when its id was neither recorded nor requested earlier |
| Board.RunsAtMostOnce | app.py:32-46 | the same action never runs twice |
| Board.MoveIdsApart | app.py:51 | moves of the same task to the same status in different seconds have different ids |
| Board.MoveTask | app.py:48-52 | a new id runs update_task_status and records the id; a repeated id changes nothing; the store's `RowNotFound` comes back exactly when a move that runs names a missing id |
| Board.PressNext | app.py:666-685 | the "→" button moves to the next status under the same guard, outcome and frame as a move, and keeps every dense partition dense |
| Analytics.GenerateTaskCounts | analytics.py:6-46 | the total is the row count |
| Analytics.StatusCountIsCountIn | analytics.py:9-12 | each status count is the number of rows with exactly that status |
| Analytics.EmptyCounts | analytics.py:6-46 | an empty frame gives zero everywhere |
| Analytics.StatusPartition | analytics.py:8-12 | the four status counts plus the rows with another status make the total |
| Analytics.StatusCountsCover | analytics.py:8-12 | the status counts add to at most the total, and to the total when every status is one of the four |
| Analytics.PriorityPartition | analytics.py:19-22 | the four priority counts plus the rows with another priority make the total |
| Analytics.PriorityCountsCover | analytics.py:19-22 | the priority counts add to at most the total, and to the total when every priority is one of the four |
| Analytics.DueWindowsPartition | analytics.py:15-28 | overdue, due within three days, and the rest split the rows |
| Analytics.DueWindowsDisjoint | analytics.py:15-28 | overdue plus due-soon is at most the total |
| Analytics.DueCountsByDayOnly | analytics.py:15-28 | the date counts depend on the due days alone, not on status, priority or time |
| Analytics.UndatedRowsUncounted | analytics.py:15-28 | rows without a due date add to the total and to neither date count |

## Left out

- `auth.py` is not part of this model: user accounts, password hashing, cookies and login forms.
- All rendering: the page layout, cards, calendar, charts and CSS. So are the subtasks query, the cached wrappers and `st.rerun`/cache clearing.
- SQLite itself: connections, transactions and rollback. The same goes for concurrent sessions writing the same file.
- The `ON DELETE CASCADE` clause: no foreign-key enforcement is switched on, so deleting a task leaves its subtasks.
- Timestamps are local integer seconds. Sub-second precision and floating-point `total_seconds()` are not modelled. Neither are dates past `pd.Timestamp.max`.
- The `strptime`/`strftime` formats are abstracted to their outcome: a parsed day or minute, or a failure. So are the display texts of dates (`"19 Apr 2025"`).
- Tasks.DateField: one parse outcome per stored date, shared by `strptime(..., '%Y-%m-%d')` (utils.py:31, validation.py:32) and `pd.to_datetime(errors='coerce')` (database.py:70, analytics.py:16, app.py:534-554). They disagree on texts pandas accepts that are not ISO `YYYY-MM-DD` (such as `"04/19/2025"`), and on dates before `pd.Timestamp.min` (1677-09-21) or after `pd.Timestamp.max` (2262-04-11), which `strptime` parses and pandas coerces to NaT. The model gives both parsers the same answer: a `Day` or a `Text`.
- Tasks.TimeField: one parse outcome per stored time, shared by `strptime(..., '%H:%M')` in utils.py and the looser `pd.to_datetime` in `get_tasks` (database.py:75). A time such as `"14:30:00"`, which `pd.to_datetime` accepts and `strptime` refuses, is `BadTime` for both, so the model calls such a row unreadable where `get_tasks` would sort it.
- Utils.CalculateDueStatus: the display text is modelled by which parts it shows (`Display`), not as formatted text.
- Board.SearchMeaning: `str.contains` treats the query as a regular expression. The model does literal substring search, which agrees for queries without regex metacharacters.
- Strings.Lower: lowercases ASCII letters only. Python's `str.lower` also lowers other Unicode letters.
- Board.ApplyFilters: the widgets that fill the criteria are inputs. The status and priority selections are sequences, and duplicates in them do not matter.
- Database.ReadTasks: the board and the counts are modelled on the rows of a successful read only; on the failed read (`None`) the column accesses in app.py and analytics.py raise `KeyError`, which is not modelled.
- Board.MoveTask: a missing id makes `update_task_status` raise a `TypeError`. `move_task` lets it through, and the "→" button's handler (app.py:671-678) shows it as an error message. The model returns it as `Failure(RowNotFound)` instead, with the action id recorded as in the source; the message text is not modelled.
- Validation: `validate_task_input`, `sanitize_input` and `validate_labels` are imported by the app but never called there. The model covers them as functions of their own.
- Validation.ValidateLabels: the order of the output follows the set iteration order, which Python leaves unspecified. The model picks members in an arbitrary order and promises only the set and its distinctness.
- NaN and None are both `Absent`/`NoTime`. Pandas' NaN-truthiness corner is handled where it matters: a stored NaN time reads as "".
