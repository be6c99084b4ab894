# Chore calendar: recurrence engine and state logic in Dafny

This project models the core of a household chore calendar written in
TypeScript and React, and proves properties of the model.

A chore has an anchor date (`yyyy-MM-dd`) and one recurrence rule:
- none;
- daily or monthly, every N units;
- weekly, optionally on a set of weekdays;
- monthly, optionally on a fixed day of the month.

The recurrence engine (`src/services/recurrence.ts`) has three parts:
- `getNextOccurrence` steps a date by one occurrence.
- `generateInstances` walks the occurrence sequence from the anchor. It first
  fast-forwards to the visible range, then emits one calendar event per
  occurrence inside the range and before the rule's end date.
- `generateAllEvents` does this for every chore.

Each event is joined with its per-occurrence override record and with the
chore's assignee. Both are first-match lookups.

Around the engine the project models:
- the chore store and the team store, as reducers over immutable lists, with
  soft delete and the active-entity filters;
- the visible date range of each calendar view, and how an event renders as
  completed and in which colour;
- the handlers that turn calendar clicks and form submissions into store
  actions;
- the rule editor, the chore form's initial values and submission payload,
  and the initials on a member badge.

## Modules

| file | module | models |
|---|---|---|
| `common.dfy` | `Common` | `Option`, decimal digits and zero padding, a generic `FlatMap` |
| `calendar_date.dfy` | `CalendarDate` | proleptic Gregorian dates with a day number. These are the date-fns primitives the code calls: `addDays`, `addWeeks`, `addMonths` (clamping), `getDay`, `getDaysInMonth`, `startOfMonth`, `endOfMonth`, `startOfWeek` (Sunday first), `setDate`, and `isBefore`/`isAfter`/`isSameDay` at day granularity |
| `date_format.dfy` | `DateFormat` | `formatDateISO` (the extended complete calendar date of ISO 8601, section 5.2.1.1 of ISO 8601:2004), `parseDateString` on that form, `getInstanceKey` |
| `types.dfy` | `Types` | the records of `src/types`, JavaScript truthiness of optional strings, and the first-match lookups of override records and members |
| `js_builtins.dfy` | `JsBuiltins` | the JavaScript built-ins the core relies on: `trim`, `parseInt` on decimal text, `Array.prototype.sort` with no comparator (string order of the numbers' decimal text), `split(' ')` and `toUpperCase` on ASCII letters |
| `recurrence.dfy` | `Recurrence` | `getNextOccurrence`, `generateInstances`, `createEvent`, `generateAllEvents` |
| `chore_context.dfy` | `ChoreContext` | `choreReducer` with all five actions, `toggleInstance`, `getInstanceStatus`, `getChoreById`, the active-chore filter |
| `team_context.dfy` | `TeamContext` | `teamReducer` with all four actions, `getMemberById`, the active-member filter |
| `chore_calendar.dfy` | `ChoreCalendar` | the visible range per view, the events shown, effective completion and colour, and the add, update, delete and toggle handlers |
| `recurrence_selector.dfy` | `RecurrenceSelector` | the pattern, interval, weekday and end-date handlers of the rule editor |
| `chore_form.dfy` | `ChoreForm` | the form's initial fields and `handleSubmit` |
| `member_badge.dfy` | `TeamMemberBadge` | the initials of a badge |

## How the engine is specified

The engine has two definitions of the same behaviour.

`getNextOccurrence` is modelled twice:
- `Recurrence.NextOccurrence` is a function.
- `Recurrence.GetNextOccurrence` is a method. It keeps the source's day-by-day
  weekly `for` loop and is proved equal to the function.

`generateInstances` is also modelled twice:
- `Recurrence.GenerateInstances` is a method with the source's two `while`
  loops and its mutable cursor.
- Its postcondition equates the emitted events with `Recurrence.ChoreEvents`,
  the reference definition. For a recurring rule, `ChoreEvents` keeps, in
  order, those of the first N members of the sequence `anchor,
  next(anchor), …` that are in the window. N is one more than the number of
  days from the anchor to `rangeEnd`.
- `ChoreEvents` is the source's result only for well-formed rules: a `none`
  rule, or a recurring rule with interval ≥ 1 and no negative day-of-month.
  For other recurring rules it is a definition of the model's own (see
  "Left out").

Soundness, order, completeness and the event fields are then proved about
that reference definition:
- soundness: every event is in the range;
- order: the dates strictly increase, so no date is emitted twice;
- completeness: every member of the sequence in the window is emitted;
- the event fields;
- restart: the expansion over [a, c] is the expansion over [a, b] followed by
  that over [b, c], with a date on b counted once.

Sorting of weekdays is modelled as a stable insertion sort:
- `JsBuiltins.SortBy` sorts under an abstract order.
- `JsBuiltins.JsSort` instantiates it with the string order of the decimal
  text, which is what JavaScript's default `sort` compares.

The model also records these behaviours of the code:
- `formatDateISO` writes the era year: year 0 is written `0001`. So the
  round trip and injectivity are stated for years 1 to 9999.
- In this model, a chore date that is not a `yyyy-MM-dd` date parses to an
  Invalid Date. Every comparison with it is false, so such a chore shows no events.
- An end date that is non-empty but not a date is an Invalid Date too. A
  recurring chore with one shows no events. An absent or empty end date
  means the rule has no end.
- Toggling an occurrence that has no override record always appends a
  completed record. For a chore whose own flag is already completed, the
  first toggle therefore does not change what the calendar shows.
  `ChoreCalendar.ToggleFlipsDisplayUnlessChoreCompleted` states exactly
  when the display flips.

Some behaviours of the code are easy to misread; the model follows the
code in each:
- The visible range includes `rangeEnd`: occurrences on `rangeEnd` are
  emitted (`src/services/recurrence.ts:59`, `:78`). The range is closed at
  both ends, not half-open.
- Without an override record, an occurrence of a recurring chore shows the
  chore's own `isCompleted` (`src/components/calendar/ChoreCalendar.tsx:103`).
  It is not shown as incomplete by default.
- The anchor date itself is always an occurrence, even on a weekday outside
  the rule's weekday set (`src/services/recurrence.ts:70`, `:81-86`). So a
  weekly {Sunday, Wednesday} chore anchored on Monday 2024-01-01 also shows
  on that Monday in a range starting that day, besides the Wednesdays and
  Sundays after it (`Recurrence.AnchorAlwaysCounts`).
- An interval of 0 or below, or a negative day-of-month, is neither rejected
  nor clamped. The source's loops then need not end, and it has no
  iteration cap. The model makes a positive interval a precondition of
  `GenerateInstances` for recurring rules, and the reference definition
  `ChoreEvents` and everything built on it describe the source only for
  well-formed rules (see "Left out").

## Model

| member | source | states |
|---|---|---|
| CalendarDate.DaysInMonth | src/services/recurrence.ts:37 | a month has 28 to 31 days; February has 29 exactly in a leap year |
| CalendarDate.AddDays | src/services/recurrence.ts:21 | `addDays(d, n)` is exactly n days after d (before it for negative n) |
| CalendarDate.AddWeeks | src/services/recurrence.ts:31-33 | `addWeeks(d, n)` is exactly 7·n days after d |
| CalendarDate.AddMonths | src/services/recurrence.ts:35 | `addMonths(d, n)` is n months later and keeps the day-of-month, clamped to the target month's last day |
| CalendarDate.AddMonthsClampsLeapFebruary | src/services/recurrence.ts:35 | 2024-01-31 plus one month is 2024-02-29; 2023-01-31 plus one month is 2023-02-28 |
| CalendarDate.Weekday | src/services/recurrence.ts:26 | `getDay` lies in 0..6 |
| CalendarDate.WeekdayAddDays | src/services/recurrence.ts:24-29 | n days later the weekday is (weekday + n) mod 7 |
| CalendarDate.KnownWeekdays | src/services/recurrence.ts:26 | 0 is Sunday: 2024-01-01 and 0001-01-01 are Mondays, 1970-01-01 is a Thursday |
| CalendarDate.GetDaysInMonth | src/services/recurrence.ts:37 | `getDaysInMonth` is 28, 29, 30 or 31 and at least the date's own day |
| CalendarDate.StartOfMonth | src/components/calendar/ChoreCalendar.tsx:41 | `startOfMonth` is day 1 of the same month, day−1 days earlier |
| CalendarDate.EndOfMonth | src/components/calendar/ChoreCalendar.tsx:42 | `endOfMonth` is the last day of the same month |
| CalendarDate.StartOfWeek | src/components/calendar/ChoreCalendar.tsx:44 | `startOfWeek` with `weekStartsOn: 0` is a Sunday at most 6 days earlier, and not later than the date |
| CalendarDate.SetDate | src/services/recurrence.ts:38 | `setDate(d, k)` is k−1 days after the first of d's month |
| CalendarDate.SetDateInMonth | src/services/recurrence.ts:37-38 | a day within the month sets that day of the same month |
| CalendarDate.SameDayIsEqual | src/services/recurrence.ts:58-59 | `isSameDay` holds exactly for equal calendar dates |
| CalendarDate.DayNumberInjective | src/services/recurrence.ts:58-59 | distinct calendar dates have distinct day numbers |
| CalendarDate.BeforeIsLexicographic | src/services/recurrence.ts:73 | `isBefore` at day granularity is the lexicographic order on (year, month, day) |
| CalendarDate.AddDaysAdd | src/components/calendar/ChoreCalendar.tsx:44-45 | adding m days and then n days adds m + n days |
| DateFormat.EraYear | src/utils/date.ts:4 | the year written by `yyyy` is at least 1 and equals the year for years from 1 on |
| DateFormat.FormatChars | src/utils/date.ts:3-5 | for years 1..9999 the key is four year digits, '-', two month digits, '-', two day digits |
| DateFormat.FormatDateISO | src/utils/date.ts:3-5 | `formatDateISO` writes at least 10 characters; whenever the era year has at most four digits it is `yyyy-MM-dd`-shaped: 10 characters, '-' at positions 4 and 7 and digits elsewhere |
| DateFormat.ParseDateString | src/utils/date.ts:11-13 | only `yyyy-MM-dd`-shaped text parses to a date |
| DateFormat.ParseFormatRoundTrip | src/utils/date.ts:3-13 | parsing the formatted date gives the date back, for years 1..9999 |
| DateFormat.FormatInjective | src/utils/date.ts:3-5 | distinct dates of years 1..9999 have distinct keys |
| DateFormat.ParseIsCanonical | src/utils/date.ts:11-13 | text that parses to a date of year ≥ 1 is exactly the formatted form of that date |
| DateFormat.GetInstanceKey | src/utils/date.ts:15-17 | the key is the chore id, '_' and the formatted date, in that order; for four-digit era years it is 11 characters longer than the id and its date part is `yyyy-MM-dd`-shaped |
| DateFormat.InstanceKeyInjective | src/utils/date.ts:15-17 | for one chore, distinct dates of years 1..9999 give distinct instance keys |
| DateFormat.YearZeroSharesKeyWithYearOne | src/utils/date.ts:3-5 | year 0 and year 1 are both written as `0001` |
| Common.DigitsLength | src/utils/date.ts:4 | zero padding to width w gives exactly w characters for values below 10^w |
| Common.DigitsRoundTrip | src/utils/date.ts:11-13 | the zero-padded digits read back as the number |
| Common.FlatMapAppend | src/services/recurrence.ts:122-124 | `flatMap` over a concatenation is the concatenation of the two results |
| Common.FlatMapLength | src/services/recurrence.ts:122-124 | the length of `flatMap` is the sum of the per-element lengths |
| Common.FlatMapMembership | src/services/recurrence.ts:122-124 | an element is in `flatMap` iff it is in the result for some element |
| Types.FindInstance | src/services/recurrence.ts:83-85 | a found record is one of the records and has the (choreId, instanceDate) key; one is found whenever a record has the key |
| Types.FindMemberById | src/contexts/TeamContext.tsx:81 | a found member is one of the members and has the id; one is found whenever a member has the id |
| Types.FindInstanceIsFirstMatch | src/services/recurrence.ts:83-85 | the override lookup finds the first record with the (choreId, instanceDate) key, and nothing iff no record has the key |
| Types.FindMemberIsFirstMatch | src/services/recurrence.ts:54 | the member lookup finds the first member with the id, and nothing iff no member has it |
| JsBuiltins.TrimIsInnerPiece | src/components/chores/ChoreForm.tsx:29-32 | `trim` yields the piece of the text with only white space before and after it and none at its own ends |
| JsBuiltins.Trim | src/components/chores/ChoreForm.tsx:29 | `trim` never lengthens the text and gives "" exactly when the text is all white space |
| JsBuiltins.TrimIdempotent | src/components/chores/ChoreForm.tsx:32 | trimming a trimmed text changes nothing |
| JsBuiltins.ParseIntReadsLeadingDigits | src/components/chores/RecurrenceSelector.tsx:64 | `parseInt` of a number's decimal text followed by a non-digit is that number; with a leading '-' it is its negation |
| JsBuiltins.ParseIntOfDigits | src/components/chores/RecurrenceSelector.tsx:64 | `parseInt` reads the value of a leading run of digits |
| JsBuiltins.ParseIntOfNegatedDigits | src/components/chores/RecurrenceSelector.tsx:64 | `parseInt` of '-' and a digit run is the negated value |
| JsBuiltins.ParseInt | src/components/chores/RecurrenceSelector.tsx:64 | a number is read only from text that holds a digit; text that starts with anything but a digit, a sign or white space is NaN |
| JsBuiltins.StrLeTotal | src/components/chores/RecurrenceSelector.tsx:32 | the string order of `sort` is total |
| JsBuiltins.StrLeRefl | src/components/chores/RecurrenceSelector.tsx:32 | the string order is reflexive |
| JsBuiltins.StrLeTrans | src/components/chores/RecurrenceSelector.tsx:32 | the string order is transitive |
| JsBuiltins.NumberTextLeIsTotalOrder | src/components/chores/RecurrenceSelector.tsx:32 | comparing numbers by their decimal text is a total, transitive order |
| JsBuiltins.InsertSorted | src/components/chores/RecurrenceSelector.tsx:32 | inserting into a sorted list keeps it sorted and adds exactly the element |
| JsBuiltins.SortBySorts | src/components/chores/RecurrenceSelector.tsx:32 | the sort returns a sorted permutation of its input |
| JsBuiltins.JsSort | src/components/chores/RecurrenceSelector.tsx:32 | the default `sort` of numbers returns a permutation of its input, ordered by the string order of the decimal text |
| JsBuiltins.InsertGreatest | src/components/chores/RecurrenceSelector.tsx:32 | an element no smaller than every other lands at the end |
| JsBuiltins.SortedChain | src/components/chores/RecurrenceSelector.tsx:32 | in a sorted list every earlier element is at most every later one |
| JsBuiltins.SortByOfSorted | src/components/chores/RecurrenceSelector.tsx:32 | sorting an already sorted list leaves it unchanged |
| JsBuiltins.SingleDigitOrder | src/components/chores/RecurrenceSelector.tsx:32 | on 0..9 the text order is the numeric order |
| JsBuiltins.StringOrderIsNotNumeric | src/components/chores/RecurrenceSelector.tsx:32 | beyond one digit it is not: 10 sorts before 9 |
| JsBuiltins.ToUpper | src/components/team/TeamMemberBadge.tsx:14 | `toUpperCase` keeps the length |
| JsBuiltins.Split | src/components/team/TeamMemberBadge.tsx:11 | `split(' ')` yields at least one piece |
| JsBuiltins.SplitAtSpace | src/components/team/TeamMemberBadge.tsx:11 | splitting `a + " " + b` gives the pieces of a followed by those of b |
| JsBuiltins.SplitNoSpace | src/components/team/TeamMemberBadge.tsx:11 | a text without spaces is a single piece |
| JsBuiltins.SplitJoin | src/components/team/TeamMemberBadge.tsx:11 | joining the pieces with ' ' gives the text back, and no piece holds a space |
| Recurrence.FirstSelectedOffsetIsLeast | src/services/recurrence.ts:23-30 | the weekday search finds the least offset in 1..7 whose weekday is selected, and nothing iff none is |
| Recurrence.GetNextOccurrence | src/services/recurrence.ts:18-44 | the method, weekly loop included, returns `NextOccurrence` |
| Recurrence.ScanWeek | src/services/recurrence.ts:24-31 | the weekly `for` loop returns the weekly-with-weekdays step |
| Recurrence.WeeklyWithDaysIsFirstOffset | src/services/recurrence.ts:24-31 | for interval ≥ 1 the scan returns the date at the least selected offset, or whole weeks when no weekday is selected |
| Recurrence.NextAdvances | src/services/recurrence.ts:18-43 | for every recurring rule with interval ≥ 1, the next occurrence is strictly later |
| Recurrence.NextOccurrence | src/services/recurrence.ts:18-44 | daily steps exactly `interval` days; weekly without weekdays exactly 7·`interval` days; weekly with weekdays lands on a selected weekday or 7·`interval` days on; weekly with interval ≥ 1 is 1 to 7·`interval` days later; monthly (day-of-month absent or not negative) moves `interval` months; `none` returns the date unchanged |
| Recurrence.WeeklyWithDays | src/services/recurrence.ts:23-31 | the weekly loop returns a date on a selected weekday or the `addWeeks` fallback; for interval ≥ 1 it is strictly later and at most 7·interval days on |
| Recurrence.WeeklyWithDaysStep | src/services/recurrence.ts:23-30 | weekly with a weekday in 0..6 selected: the result is 1 to 7 days later, on a selected weekday, with no selected weekday in between, whatever the interval |
| Recurrence.MonthlyPlainStep | src/services/recurrence.ts:34-40 | monthly without a day-of-month (absent or 0) moves `interval` months and clamps the day |
| Recurrence.MonthlyDayStep | src/services/recurrence.ts:34-40 | monthly with day-of-month d in 1..31 moves `interval` months, to day min(d, days in that month) |
| Recurrence.MonthlyClampsToLeapFebruary | src/services/recurrence.ts:34-40 | 2024-01-31 steps to 2024-02-29, with and without day-of-month 31 |
| Recurrence.GenerateInstances | src/services/recurrence.ts:46-92 | the two-loop method returns exactly the reference events `ChoreEvents` |
| Recurrence.EndBoundOf | src/services/recurrence.ts:71 | an absent or empty end date means no end; text that parses is the bound; other non-empty text is an Invalid Date |
| Recurrence.FastForward | src/services/recurrence.ts:73-75 | the skip loop stops at a member of the occurrence sequence, all of whose predecessors are before rangeStart |
| Recurrence.Advance | src/services/recurrence.ts:88 | one step moves the cursor to the next member of the sequence, strictly later |
| Recurrence.EmitOccurrences | src/services/recurrence.ts:77-89 | the emission loop yields one event per in-window member of the sequence, in order |
| Recurrence.EmitOne | src/services/recurrence.ts:81-87 | one iteration emits the cursor's event exactly when the cursor is at or after rangeStart |
| Recurrence.WindowPastEnd | src/services/recurrence.ts:77-80 | once the cursor is past rangeEnd or past the end date, no later member is in the window |
| Recurrence.WindowSound | src/services/recurrence.ts:77-89 | every emitted date is in [rangeStart, rangeEnd], within the end date, and a member of the sequence |
| Recurrence.WindowIncreasing | src/services/recurrence.ts:77-89 | the emitted dates strictly increase |
| Recurrence.WindowComplete | src/services/recurrence.ts:77-89 | every in-window member among the first k is emitted |
| Recurrence.OccurrenceComplete | src/services/recurrence.ts:70-89 | every member of the sequence in the window is among the chore's dates |
| Recurrence.OccurrenceDatesExact | src/services/recurrence.ts:70-89 | a recurring chore's dates are strictly increasing, all in the window, all members of the sequence, and include every in-window member |
| Recurrence.AnchorAlwaysCounts | src/services/recurrence.ts:70-81 | the anchor is emitted when it is in the window, even on an unselected weekday |
| Recurrence.InvertedRangeIsEmpty | src/services/recurrence.ts:57-89 | rangeEnd before rangeStart yields no dates, for every pattern |
| Recurrence.NoRepeatEvents | src/services/recurrence.ts:57-68 | a `none` chore yields one event, on its anchor, iff the anchor is in the range, and none otherwise; its end date is ignored |
| Recurrence.EventAtFields | src/services/recurrence.ts:94-113 | each event has id `choreId_yyyy-MM-dd`, the chore's title, start = end = its date, and the override found for its key |
| Recurrence.OccurrenceDates | src/services/recurrence.ts:57-89 | every date, for every pattern, lies in [rangeStart, rangeEnd]; for a recurring rule every date is also within the end date, and for a well-formed rule (interval ≥ 1, no negative day-of-month) the dates strictly increase |
| Recurrence.Restart | src/services/recurrence.ts:70-89 | expanding over [a, c] gives the dates of [a, b] followed by those of [b, c], with a date on b counted once: the expansion can be restarted at any later start |
| Recurrence.FindAssignee | src/services/recurrence.ts:54 | a found assignee is one of the members and has the chore's assignee id; none is found iff the chore has no assignee or no member has that id |
| Recurrence.CreateEvent | src/services/recurrence.ts:94-113 | the event id is `getInstanceKey(chore.id, date)`, start = end = date, the title is the chore's, and the resource carries the chore, the override, the assignee and the formatted date |
| Recurrence.ChoreEvents | src/services/recurrence.ts:46-92 | a chore whose date does not parse has no events; a `none` chore has at most one; every event carries the chore and starts in [rangeStart, rangeEnd] |
| Recurrence.ChoreEventsRestart | src/services/recurrence.ts:46-92 | the same restart holds for a chore's events: those of [a, c] are those of [a, b] followed by those of [b, c], without a second event on b |
| Recurrence.ChoreEventFields | src/services/recurrence.ts:54-113 | every event of a chore is in range and carries the chore, its key's first override and the first member with the assignee id |
| Recurrence.ChoreEventIdsDistinct | src/services/recurrence.ts:100-102 | a chore's events have pairwise distinct ids (years 1..9999) |
| Recurrence.AllEventsAppend | src/services/recurrence.ts:122-124 | the events of a+b are those of a followed by those of b, unsorted |
| Recurrence.AllEventsSingle | src/services/recurrence.ts:122-124 | the events of one chore are that chore's events |
| Recurrence.AllEvents | src/services/recurrence.ts:115-125 | the number of events is the sum over the chores of each chore's events |
| Recurrence.AllEventsMembership | src/services/recurrence.ts:122-124 | an event is shown iff it is an event of one of the chores |
| ChoreContext.AddChoreAppends | src/contexts/ChoreContext.tsx:32-41 | ADD_CHORE appends one chore with the payload fields, the fresh id and createdAt = updatedAt = now; the rest is unchanged |
| ChoreContext.UpdateChoreEffect | src/contexts/ChoreContext.tsx:42-50 | UPDATE_CHORE keeps the length, replaces matching chores by the payload stamped with now and keeps the others; with no match nothing changes |
| ChoreContext.DeleteChoreEffect | src/contexts/ChoreContext.tsx:51-57 | DELETE_CHORE keeps the length and all fields, except that matching chores gain deletedAt = now |
| ChoreContext.ActiveChores | src/contexts/ChoreContext.tsx:141 | the active chores are exactly the chores without a truthy deletedAt |
| ChoreContext.ActiveChoresAppend | src/contexts/ChoreContext.tsx:141 | the active filter keeps order: it distributes over concatenation |
| ChoreContext.DeleteHidesChore | src/contexts/ChoreContext.tsx:51-57 | after a delete the active chores are the previously active ones without that id |
| ChoreContext.GetChoreById | src/contexts/ChoreContext.tsx:137-139 | a found chore is in the list and has the id; one is found whenever a chore has it |
| ChoreContext.GetChoreByIdIsFirstMatch | src/contexts/ChoreContext.tsx:137-139 | `getChoreById` returns the first chore with the id, and nothing iff none has it |
| ChoreContext.GetChoreByIdSeesDeleted | src/contexts/ChoreContext.tsx:137-139 | a deleted chore is still found, now with its deletedAt set |
| ChoreContext.ToggleRecords | src/contexts/ChoreContext.tsx:58-88 | a toggle keeps every record's key and every record with another key, and appends at most one record, which is completed with completedAt = now and the given completedBy |
| ChoreContext.ToggleAbsentAppends | src/contexts/ChoreContext.tsx:80-87 | with no record for the key, one completed record with completedAt = now and the given completedBy is appended, whatever the chore's flag |
| ChoreContext.TogglePresentFlips | src/contexts/ChoreContext.tsx:59-78 | with a record, the length is kept, matching records flip and set or clear completedAt/completedBy, and other records are unchanged |
| ChoreContext.ToggleNegatesStatus | src/contexts/ChoreContext.tsx:58-88 | after a toggle the key has a record, completed iff it was not completed before |
| ChoreContext.ToggleTwiceRestores | src/contexts/ChoreContext.tsx:58-88 | toggling a key twice restores whether it counts as completed |
| ChoreContext.ToggleInstanceFor | src/contexts/ChoreContext.tsx:124-129 | `toggleInstance` dispatches TOGGLE_INSTANCE for the chore and completedBy, keyed by `formatDateISO(date)`, which reads back as the date for years 1..9999 |
| ChoreContext.GetInstanceStatus | src/contexts/ChoreContext.tsx:131-135 | a found record is one of the overrides and has the key; one is found whenever an override has the key |
| ChoreContext.ToggleThenStatus | src/contexts/ChoreContext.tsx:124-135 | `toggleInstance` keys by `formatDateISO(date)`, and `getInstanceStatus` then finds a record whose flag is the negated status |
| ChoreContext.ReducePreservesUniqueKeys | src/contexts/ChoreContext.tsx:30-94 | every action except LOAD_STATE keeps the (choreId, instanceDate) keys unique |
| ChoreContext.Reduce | src/contexts/ChoreContext.tsx:30-94 | chore actions keep the overrides; ADD_CHORE keeps the old chores and adds one after them; UPDATE_CHORE and DELETE_CHORE keep the length; toggles keep the chores; LOAD_STATE replaces both lists; an unknown action changes nothing |
| TeamContext.Reduce | src/contexts/TeamContext.tsx:25-57 | ADD_MEMBER appends one member with the fresh id, name, color, createdAt = now and no deletedAt; UPDATE_MEMBER keeps the length and changes only name and color of matching members; DELETE_MEMBER keeps the length and stamps deletedAt = now on matching members; LOAD_MEMBERS replaces the list; an unknown action is the identity |
| TeamContext.GetMemberById | src/contexts/TeamContext.tsx:79-82 | a found member comes from a truthy id, is in the list and has that id; one is found whenever the id is truthy and a member has it |
| TeamContext.GetMemberByIdIsFirstMatch | src/contexts/TeamContext.tsx:79-82 | a null or empty id finds nothing; otherwise the first member with the id, deleted or not |
| TeamContext.ActiveMembers | src/contexts/TeamContext.tsx:84 | the active members are exactly the members without a truthy deletedAt |
| TeamContext.ActiveMembersAppend | src/contexts/TeamContext.tsx:84 | the active filter keeps order |
| TeamContext.DeletedAssigneeRendersUnassigned | src/contexts/TeamContext.tsx:84 | a chore whose assignee id matches only deleted members gets events with no assignee |
| TeamContext.DeleteMemberHides | src/contexts/TeamContext.tsx:45-51 | after a delete no active member has the id, and the calendar's assignee lookup finds none |
| ChoreCalendar.MonthRange | src/components/calendar/ChoreCalendar.tsx:40-42 | month view: from 7 days before the first of the month to 7 days after its last day, holding every day of the month |
| ChoreCalendar.WeekRange | src/components/calendar/ChoreCalendar.tsx:43-45 | week view: from the Saturday before the Sunday starting the week, for 9 days |
| ChoreCalendar.WeekRangeCoversWeek | src/components/calendar/ChoreCalendar.tsx:43-45 | every day of the anchor's Sunday-first week lies strictly inside the range |
| ChoreCalendar.DayRange | src/components/calendar/ChoreCalendar.tsx:46-48 | day view (and any other view): from the date to the next day |
| ChoreCalendar.VisibleRange | src/components/calendar/ChoreCalendar.tsx:36-52 | in every view rangeStart is before rangeEnd and the range holds the date |
| ChoreCalendar.EventOfChore | src/components/calendar/ChoreCalendar.tsx:54-57 | an event of a chore carries that chore, its assignee, its override and its key, and lies in the range |
| ChoreCalendar.InAllEvents | src/components/calendar/ChoreCalendar.tsx:54-57 | an event is shown iff its chore is among the chores and the event is one of that chore's |
| ChoreCalendar.CalendarEvents | src/components/calendar/ChoreCalendar.tsx:54-57 | every shown event belongs to a chore of the store that is not deleted, and starts in the visible range |
| ChoreCalendar.ShownEventsAreActive | src/components/calendar/ChoreCalendar.tsx:54-57 | every shown event belongs to a non-deleted chore, lies in the visible range, and shows an assignee only if that member is active |
| ChoreCalendar.EventCompletion | src/components/calendar/ChoreCalendar.tsx:101-103 | an event renders completed iff its override says so, or, with no override, the chore does |
| ChoreCalendar.EffectiveCompleted | src/components/calendar/ChoreCalendar.tsx:103 | an override record decides completion; without one the chore's own flag does |
| ChoreCalendar.EventColor | src/components/calendar/ChoreCalendar.tsx:107 | the background is the assignee's colour, and #6B7280 without an assignee |
| ChoreCalendar.DeletedAssigneeIsGrey | src/components/calendar/ChoreCalendar.tsx:107 | a chore assigned to a deleted member renders grey (#6B7280) |
| ChoreCalendar.HandleToggleComplete | src/components/calendar/ChoreCalendar.tsx:91-99 | the toggle targets the event's chore, is keyed by the event's day as `yyyy-MM-dd` (which reads back as that day for years 1..9999) and has no completedBy |
| ChoreCalendar.ToggleTargetsEvent | src/components/calendar/ChoreCalendar.tsx:91-99 | the toggle is keyed by the event's chore id and occurrence date, which together make the event id |
| ChoreCalendar.ToggleCompleteEffect | src/components/calendar/ChoreCalendar.tsx:91-99 | after the toggle the occurrence is completed iff its overrides did not say completed before |
| ChoreCalendar.ToggleFlipsDisplayUnlessChoreCompleted | src/components/calendar/ChoreCalendar.tsx:101-103 | the toggle flips what the event shows iff the occurrence had a record or the chore's own flag is false |
| ChoreCalendar.HandleUpdateChore | src/components/calendar/ChoreCalendar.tsx:72-80 | the chore sent keeps id, createdAt, updatedAt and deletedAt of the selected chore and takes the five form fields |
| ChoreCalendar.UpdateFromForm | src/components/calendar/ChoreCalendar.tsx:72-80 | editing lays the five form fields over the chore; id, createdAt and deletedAt are kept, updatedAt becomes now, other chores are unchanged |
| ChoreCalendar.SaveUnchangedKeepsChore | src/components/calendar/ChoreCalendar.tsx:72-80 | opening a chore and saving it unchanged gives back the same chore (trimmed non-empty title, assignee not "") |
| ChoreCalendar.HandleAddChore | src/components/calendar/ChoreCalendar.tsx:67-70 | adding dispatches ADD_CHORE of an active draft carrying the five form fields |
| ChoreCalendar.AddShowsNewChore | src/components/calendar/ChoreCalendar.tsx:67-70 | adding from the form appends one active chore with the form's fields, the fresh id and now |
| ChoreCalendar.AddOneOffShowsOnDay | src/components/calendar/ChoreCalendar.tsx:67-70 | a one-off chore added on a day in the range adds exactly one event, on that day, after the events already shown |
| ChoreCalendar.HandleDeleteChore | src/components/calendar/ChoreCalendar.tsx:82-89 | deleting dispatches DELETE_CHORE of the selected event's chore id |
| ChoreCalendar.DeleteRemovesChoreEvents | src/components/calendar/ChoreCalendar.tsx:82-89 | after the delete an event is shown iff it was shown before and belongs to another chore |
| RecurrenceSelector.PatternChange | src/components/chores/RecurrenceSelector.tsx:11-22 | a pattern change gives exactly {pattern, interval 1}, plus today's weekday for weekly, and the rule is well formed |
| RecurrenceSelector.WeeklyPatternStepsAWeek | src/components/chores/RecurrenceSelector.tsx:17-18 | a fresh weekly rule steps from today to the same weekday a week later |
| RecurrenceSelector.IntervalInputValues | src/components/chores/RecurrenceSelector.tsx:64 | the input gives the typed number, 1 for 0 and for the empty text, and negative numbers unchanged |
| RecurrenceSelector.IntervalInput | src/components/chores/RecurrenceSelector.tsx:64 | the input never yields 0: it yields the number `parseInt` reads when that is a non-zero number, and 1 for NaN and 0 |
| RecurrenceSelector.IntervalChange | src/components/chores/RecurrenceSelector.tsx:24-26 | an interval change sets the interval and keeps every other field |
| RecurrenceSelector.JsSortWeekdaysAscending | src/components/chores/RecurrenceSelector.tsx:32 | on weekday numbers the default sort is an ascending permutation |
| RecurrenceSelector.Without | src/components/chores/RecurrenceSelector.tsx:31 | the filter keeps exactly the elements other than the day |
| RecurrenceSelector.ToggleSelectedDayRemoves | src/components/chores/RecurrenceSelector.tsx:28-37 | toggling a selected day removes every copy of it; nothing is handed on iff no other day remains |
| RecurrenceSelector.ToggleUnselectedDayAdds | src/components/chores/RecurrenceSelector.tsx:28-37 | toggling an unselected day hands on a sorted permutation of the old days plus the new one |
| RecurrenceSelector.DaysOfWeekToggle | src/components/chores/RecurrenceSelector.tsx:28-37 | a rule handed on has a non-empty weekday set and no other field changed; nothing is handed on iff the day is selected and no other value is |
| RecurrenceSelector.DayToggleTwiceRestores | src/components/chores/RecurrenceSelector.tsx:28-37 | adding an unselected day to a sorted non-empty selection and toggling it again restores the selection |
| RecurrenceSelector.EndDateChange | src/components/chores/RecurrenceSelector.tsx:39-41 | an end-date change sets only the end date: other text is kept as typed, and '' clears it, so the engine reads no end |
| ChoreForm.InitialFields | src/components/chores/ChoreForm.tsx:18-25 | editing starts from the chore's own fields, a null assignee shown as ""; a new chore's form starts empty, with no repetition, on the clicked day or today, and that date text reads back as the day |
| ChoreForm.HandleSubmit | src/components/chores/ChoreForm.tsx:27-38 | nothing is submitted iff the title is empty or all white space; otherwise the title is the typed title, trimmed (non-empty, no white space at either end), "" becomes a null assignee, date and rule are kept, and isCompleted comes from the chore being edited or is false |
| ChoreForm.ToDraft | src/components/chores/ChoreForm.tsx:31-37 | the ADD_CHORE payload is the form data with no deletedAt, so the chore it makes is active |
| ChoreForm.EditUnchangedRoundTrip | src/components/chores/ChoreForm.tsx:18-37 | submitting an unchanged edit form gives back the chore's fields ("" as null) |
| ChoreForm.SubmitIdempotent | src/components/chores/ChoreForm.tsx:27-38 | resubmitting what a submission produced gives the same data |
| TeamMemberBadge.FirstChars | src/components/team/TeamMemberBadge.tsx:12-13 | there are no more first characters than pieces |
| TeamMemberBadge.Initials | src/components/team/TeamMemberBadge.tsx:10-15 | the initials are at most 2 characters |
| TeamMemberBadge.FirstCharsAppend | src/components/team/TeamMemberBadge.tsx:12-13 | the first characters of a+b are those of a followed by those of b |
| TeamMemberBadge.OneWord | src/components/team/TeamMemberBadge.tsx:10-15 | a single word gives its own first character, upper-cased |
| TeamMemberBadge.TwoWords | src/components/team/TeamMemberBadge.tsx:10-15 | two or more words give the upper-cased first characters of the first two ("ann bo cy" → "AB") |
| TeamMemberBadge.BlankNameHasNone | src/components/team/TeamMemberBadge.tsx:10-15 | an empty name, or one of spaces alone, gives "" |
| TeamMemberBadge.DoubledSpaceIgnored | src/components/team/TeamMemberBadge.tsx:10-15 | a doubled space adds no initial: the empty piece has no first character |
| TeamMemberBadge.InitialsAreUpperCase | src/components/team/TeamMemberBadge.tsx:14 | the initials hold no lower-case ASCII letter |

## Left out

- Time of day and time zones: JavaScript `Date` instants are modelled as whole calendar days. In day view, `rangeStart` carries the current clock time (`src/components/calendar/ChoreCalendar.tsx:32`, `:47`), while occurrences sit at local midnight (`src/services/recurrence.ts:55`). So the instant comparison at `src/services/recurrence.ts:73` skips the current day's recurring occurrence in day view. A day-granularity model does not reproduce this.
- Recurrence.GenerateInstances: a recurring rule must have interval ≥ 1 and no negative day-of-month. Under other rules the source's loops need not end, so no result is specified for them.
- Recurrence.OccurrenceDates and Recurrence.ChoreEvents: for a recurring rule that is not well formed (interval ≤ 0 or a negative day-of-month) the definition keeps the in-window members among the first N members of the occurrence sequence (N as above). That need not be what the source computes: its loops may not end, or it may return something else. For example, for a daily rule with interval −1, anchor 2024-01-02, end date 2024-01-01 and range [2024-01-01, 2024-01-03], the source's emission loop stops at once because the anchor is past the end date, so it returns []. The definition returns [2024-01-01]. `Recurrence.AllEvents`, `ChoreCalendar.CalendarEvents` and the calendar lemmas built on them (`ShownEventsAreActive`, `AddOneOffShowsOnDay`, `DeleteRemovesChoreEvents`) inherit this, so for chores with such rules they describe the model's definition rather than the source's output. Such rules are reachable: the interval input passes negative numbers through, and LOAD_STATE loads stored rules unchecked.
- `parseISO` is modelled only on the `yyyy-MM-dd` form, with day validation. Its other ISO 8601 forms (times, week dates, ordinal dates, expanded years) are not modelled. The chore form and the rule editor fill the chore date and the end date from `type="date"` inputs, which produce that form.
- DateFormat.ParseFormatRoundTrip, DateFormat.FormatInjective and DateFormat.InstanceKeyInjective are stated for years 1 to 9999 only, because `yyyy` writes the era year and more digits beyond 9999.
- ChoreForm.InitialFields: the read-back of the date text is stated for years 1 to 9999 only, for the same reason.
- ChoreContext.ToggleInstanceFor: the read-back of the key as the date is stated for years 1 to 9999 only, for the same reason.
- ChoreCalendar.HandleToggleComplete: the read-back of the key as the event's day is stated for years 1 to 9999 only, for the same reason.
- ChoreCalendar.AddOneOffShowsOnDay requires a day of year 1 to 9999, for the same reason.
- Recurrence.ChoreEventIdsDistinct requires a range within years 1 to 9999, for the same reason.
- `parseInt`: the `0x` hexadecimal prefix and the loss of precision beyond 2^53 are not modelled; numbers are unbounded integers.
- `toUpperCase` is modelled on ASCII letters only; other characters are kept as they are.
- Strings are sequences of characters, not of UTF-16 code units. `part[0]` and `slice(0, 2)` therefore count characters.
- Persistence: `src/services/storage.ts`, the `useLocalStorage` hook and the `useEffect` syncing (`src/contexts/ChoreContext.tsx:104-110`, `src/contexts/TeamContext.tsx:63-65`) are I/O.
- Fresh ids (`generateId`), the current time (`new Date().toISOString()`) and "today" (`new Date()`) are parameters of the operations that use them. `generateId` is not part of this model.
- React plumbing: the context providers, the `useReducer`/`useMemo`/`useCallback`/`useState` wiring, the selected-event state and the `confirm()` dialog before a delete (`src/components/calendar/ChoreCalendar.tsx:84`) are framework glue. The delete handler is modelled as if it were confirmed.
- Rendering: layout components, the toolbar, modals, the react-big-calendar localizer, the opacity style and `getContrastColor` are display only.
- `formatDateTime` (`src/utils/date.ts:7-9`) depends on the locale's month names and is display only.
- `TeamMemberForm.tsx`: its only logic is the same trim-then-submit guard as the chore form's.
- The constants `RECURRENCE_PATTERNS` and `DAYS_OF_WEEK` are not part of this model; the pattern is a datatype and weekdays are integers.
