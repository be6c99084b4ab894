/** The recurrence engine: stepping a date by one occurrence of a rule, and
    expanding one chore (or all chores) into the calendar events that fall in
    a visible date range. */
module Recurrence {
  import opened Common
  import opened CalendarDate
  import opened DateFormat
  import opened Types

  // ===== One step of a rule =====

  /** Weekday (w + k) mod 7 is one of the selected weekdays. */
  predicate Selected(days: seq<int>, w: int, k: int) {
    (w + k) % 7 in days
  }

  /** The least offset k in [from, 7] whose weekday, counted from weekday w,
      is selected. */
  function FirstSelectedOffset(w: int, days: seq<int>, from: nat): Option<nat>
    decreases 8 - from
  {
    if from > 7 then None
    else if Selected(days, w, from) then Some(from)
    else FirstSelectedOffset(w, days, from + 1)
  }

  /** FirstSelectedOffset finds the least selected offset in [from, 7], and
      finds nothing exactly when no offset there is selected. */
  lemma {:induction false} FirstSelectedOffsetIsLeast(w: int, days: seq<int>, from: nat)
    requires from >= 1
    ensures var r := FirstSelectedOffset(w, days, from);
      && (r.Some? ==> from <= r.value <= 7 && Selected(days, w, r.value)
                      && forall j :: from <= j < r.value ==> !Selected(days, w, j))
      && (r.None? ==> forall j :: from <= j <= 7 ==> !Selected(days, w, j))
    decreases 8 - from
  {
    if from <= 7 && !Selected(days, w, from) {
      FirstSelectedOffsetIsLeast(w, days, from + 1);
    }
  }

  /** Weekly stepping with a weekday set: scan the 7·interval days after
      `current` in order and take the first on a selected weekday; step whole
      weeks when none is. The result lands on a selected weekday or exactly
      `interval` weeks on, and with a positive interval it is strictly later
      and at most `interval` weeks on. */
  function WeeklyWithDays(current: Date, days: seq<int>, interval: int): (r: Date)
    ensures Weekday(r) in days || DayNumber(r) == DayNumber(current) + 7 * interval
    ensures interval >= 1 ==> DayNumber(current) < DayNumber(r) <= DayNumber(current) + 7 * interval
  {
    WeekScan(current, days, interval, 0)
  }

  /** The rest of that scan once i days have been tried. */
  function WeekScan(current: Date, days: seq<int>, interval: int, i: nat): (r: Date)
    ensures Weekday(r) in days || DayNumber(r) == DayNumber(current) + 7 * interval
    ensures interval >= 1 && i <= 7 * interval ==> DayNumber(current) < DayNumber(r) <= DayNumber(current) + 7 * interval
    decreases 7 * interval - i
  {
    if i < 7 * interval then
      var nextDate := AddDays(current, i + 1);
      if Weekday(nextDate) in days then nextDate
      else WeekScan(current, days, interval, i + 1)
    else AddWeeks(current, interval)
  }

  /** The occurrence after `current` under `rule`: `interval` days on for a
      daily rule, `interval` weeks on for a weekly rule without weekdays and
      the next selected weekday within `interval` weeks with them,
      `interval` months on for a monthly rule (unless its day-of-month is
      negative), and `current` itself for a non-recurring rule. */
  function NextOccurrence(current: Date, rule: RecurrenceRule): (r: Date)
    ensures rule.pattern == Daily ==> DayNumber(r) == DayNumber(current) + rule.interval
    ensures rule.pattern == Weekly && (rule.daysOfWeek.None? || rule.daysOfWeek.value == [])
            ==> DayNumber(r) == DayNumber(current) + 7 * rule.interval
    ensures rule.pattern == Weekly && rule.daysOfWeek.Some? && rule.daysOfWeek.value != []
            ==> Weekday(r) in rule.daysOfWeek.value || DayNumber(r) == DayNumber(current) + 7 * rule.interval
    ensures rule.pattern == Weekly && rule.interval >= 1
            ==> DayNumber(current) < DayNumber(r) <= DayNumber(current) + 7 * rule.interval
    ensures rule.pattern == Monthly && (rule.dayOfMonth.None? || rule.dayOfMonth.value >= 0)
            ==> MonthIndex(r) == MonthIndex(current) + rule.interval
    ensures rule.pattern == NoRepeat ==> r == current
  {
    match rule.pattern
    case Daily => AddDays(current, rule.interval)
    case Weekly =>
      if rule.daysOfWeek.Some? && |rule.daysOfWeek.value| > 0
      then WeeklyWithDays(current, rule.daysOfWeek.value, rule.interval)
      else AddWeeks(current, rule.interval)
    case Monthly =>
      var nextMonth := AddMonths(current, rule.interval);
      if rule.dayOfMonth.Some? && rule.dayOfMonth.value != 0 then
        var dim := GetDaysInMonth(nextMonth);
        var day := if rule.dayOfMonth.value < dim then rule.dayOfMonth.value else dim;
        assert day >= 1 ==> SetDate(nextMonth, day) == YMD(nextMonth.year, nextMonth.month, day) by {
          if day >= 1 { SetDateInMonth(nextMonth, day); }
        }
        SetDate(nextMonth, day)
      else nextMonth
    case NoRepeat => current
  }

  /** getNextOccurrence, with the day-by-day scan of the weekly branch. */
  method GetNextOccurrence(currentDate: Date, rule: RecurrenceRule) returns (r: Date)
    ensures r == NextOccurrence(currentDate, rule)
  {
    match rule.pattern {
      case Daily =>
        return AddDays(currentDate, rule.interval);
      case Weekly =>
        if rule.daysOfWeek.Some? && |rule.daysOfWeek.value| > 0 {
          r := ScanWeek(currentDate, rule.daysOfWeek.value, rule.interval);
          return;
        }
        return AddWeeks(currentDate, rule.interval);
      case Monthly =>
        var nextMonth := AddMonths(currentDate, rule.interval);
        if rule.dayOfMonth.Some? && rule.dayOfMonth.value != 0 {
          var dim := GetDaysInMonth(nextMonth);
          var day := if rule.dayOfMonth.value < dim then rule.dayOfMonth.value else dim;
          return SetDate(nextMonth, day);
        }
        return nextMonth;
      case NoRepeat =>
        return currentDate;
    }
  }

  /** The weekday scan of getNextOccurrence (the for loop over i). */
  method ScanWeek(currentDate: Date, days: seq<int>, interval: int) returns (r: Date)
    ensures r == WeeklyWithDays(currentDate, days, interval)
  {
    var nextDate := AddDays(currentDate, 1);
    var i := 0;
    while i < 7 * interval
      invariant nextDate == AddDays(currentDate, i + 1)
      invariant WeekScan(currentDate, days, interval, i) == WeeklyWithDays(currentDate, days, interval)
      decreases 7 * interval - i
    {
      if Weekday(nextDate) in days {
        return nextDate;
      }
      AddDaysAdd(currentDate, i + 1, 1);
      nextDate := AddDays(nextDate, 1);
      i := i + 1;
    }
    return AddWeeks(currentDate, interval);
  }

  /** With a positive interval the scan finds the least selected offset from
      `current`'s weekday, which lies in the first week, and steps `interval`
      weeks when no weekday within a week is selected. */
  lemma WeeklyWithDaysIsFirstOffset(current: Date, days: seq<int>, interval: int)
    requires interval >= 1
    ensures WeeklyWithDays(current, days, interval) == OffsetDate(current, FirstSelectedOffset(Weekday(current), days, 1), interval)
  {
    WeekScanIsOffset(current, days, interval, 0);
    ScanOffsetIsFirst(Weekday(current), days, interval, 0);
  }

  /** The offset the scan stops at, if any, once i days have been tried. */
  function ScanOffset(w: int, days: seq<int>, interval: int, i: nat): Option<nat>
    decreases 7 * interval - i
  {
    if i < 7 * interval then
      if Selected(days, w, i + 1) then Some(i + 1) else ScanOffset(w, days, interval, i + 1)
    else None
  }

  /** The date an offset scan stands for: k days on, or whole weeks when
      no offset was found. */
  function OffsetDate(current: Date, o: Option<nat>, interval: int): Date {
    match o
    case Some(k) => AddDays(current, k)
    case None => AddWeeks(current, interval)
  }

  /** The date scan is the offset scan read as dates. */
  lemma {:induction false} WeekScanIsOffset(current: Date, days: seq<int>, interval: int, i: nat)
    ensures WeekScan(current, days, interval, i) == OffsetDate(current, ScanOffset(Weekday(current), days, interval, i), interval)
    decreases 7 * interval - i
  {
    if i < 7 * interval {
      WeekdayAddDays(current, i + 1);
      var w := Weekday(current);
      assert (Weekday(AddDays(current, i + 1)) in days) == Selected(days, w, i + 1);
      if !Selected(days, w, i + 1) {
        WeekScanIsOffset(current, days, interval, i + 1);
      }
    }
  }

  /** With a positive interval, an offset scan that has passed only
      unselected offsets ends at the least selected offset in the first
      week, or finds none when no weekday is selected. */
  lemma {:induction false} ScanOffsetIsFirst(w: int, days: seq<int>, interval: int, i: nat)
    requires interval >= 1 && i <= 7 * interval
    requires forall j :: 1 <= j <= i ==> !Selected(days, w, j)
    ensures ScanOffset(w, days, interval, i) == FirstSelectedOffset(w, days, 1)
    decreases 7 * interval - i
  {
    if i < 7 * interval {
      if Selected(days, w, i + 1) {
        FirstOffsetIsScanResult(w, days, i + 1);
      } else {
        ScanOffsetIsFirst(w, days, interval, i + 1);
      }
    } else {
      FirstSelectedOffsetIsLeast(w, days, 1);
    }
  }

  /** A day found by scanning offsets 1, 2, ... in order is the least
      selected offset, which lies within the first week. */
  lemma FirstOffsetIsScanResult(w: int, days: seq<int>, k: int)
    requires k >= 1 && Selected(days, w, k)
    requires forall j :: 1 <= j < k ==> !Selected(days, w, j)
    ensures FirstSelectedOffset(w, days, 1) == Some(k)
  {
    if k > 7 {
      var j := (k - 1) % 7 + 1;
      WeekdayPeriod(w, k);
      assert Selected(days, w, j);
      assert false;
    }
    ScanFinds(w, days, 1, k);
  }

  /** Offsets a week apart name the same weekday. */
  lemma WeekdayPeriod(w: int, k: int)
    requires k >= 1
    ensures 1 <= (k - 1) % 7 + 1 <= 7 && (k - 1) % 7 + 1 <= k
    ensures (w + ((k - 1) % 7 + 1)) % 7 == (w + k) % 7
  {
    var q, r := (k - 1) / 7, (k - 1) % 7;
    assert k - 1 == 7 * q + r;
    assert w + k == (w + r + 1) + 7 * q;
  }

  lemma {:induction false} ScanFinds(w: int, days: seq<int>, from: nat, k: int)
    requires 1 <= from <= k <= 7 && Selected(days, w, k)
    requires forall j :: from <= j < k ==> !Selected(days, w, j)
    ensures FirstSelectedOffset(w, days, from) == Some(k)
    decreases k - from
  {
    if from < k {
      ScanFinds(w, days, from + 1, k);
    }
  }

  /** Rules the engine can expand: a positive interval and no negative
      day-of-month. Under other rules the source's loops need not end. */
  predicate WellFormed(rule: RecurrenceRule) {
    rule.interval >= 1 && (rule.dayOfMonth.Some? ==> rule.dayOfMonth.value >= 0)
  }

  predicate Recurring(rule: RecurrenceRule) {
    rule.pattern != NoRepeat
  }

  /** Every step of a well-formed recurring rule moves at least a day forward. */
  lemma NextAdvances(d: Date, rule: RecurrenceRule)
    requires Recurring(rule) && WellFormed(rule)
    ensures DayNumber(NextOccurrence(d, rule)) > DayNumber(d)
  {
    if rule.pattern == Monthly {
      MonthIndexOrder(d, NextOccurrence(d, rule));
    }
  }

  /** Weekly steps with a weekday set land on the next selected weekday,
      within a week, whatever the interval. */
  lemma WeeklyWithDaysStep(d: Date, rule: RecurrenceRule)
    requires rule.pattern == Weekly && rule.interval >= 1
    requires rule.daysOfWeek.Some? && exists x :: x in rule.daysOfWeek.value && 0 <= x < 7
    ensures var r := NextOccurrence(d, rule);
      && DayNumber(d) < DayNumber(r) <= DayNumber(d) + 7
      && Weekday(r) in rule.daysOfWeek.value
      && forall j :: 0 < j < DayNumber(r) - DayNumber(d) ==> Weekday(AddDays(d, j)) !in rule.daysOfWeek.value
  {
    var days := rule.daysOfWeek.value;
    var w := Weekday(d);
    var x :| x in days && 0 <= x < 7;
    var k := OffsetToWeekday(w, x);
    assert Selected(days, w, k);
    var o := FirstSelectedOffset(w, days, 1);
    FirstSelectedOffsetIsLeast(w, days, 1);
    assert o.Some?;
    var r := NextOccurrence(d, rule);
    assert r == WeeklyWithDays(d, days, rule.interval);
    WeeklyWithDaysIsFirstOffset(d, days, rule.interval);
    assert r == AddDays(d, o.value);
    WeekdayAddDays(d, o.value);
    forall j | 0 < j < DayNumber(r) - DayNumber(d)
      ensures Weekday(AddDays(d, j)) !in days
    {
      WeekdayAddDays(d, j);
      assert !Selected(days, w, j);
    }
  }

  /** The offset in 1..7 from weekday w to weekday x. */
  lemma OffsetToWeekday(w: int, x: int) returns (k: int)
    requires 0 <= w < 7 && 0 <= x < 7
    ensures 1 <= k <= 7 && (w + k) % 7 == x
  {
    k := if x > w then x - w else x - w + 7;
  }

  /** Monthly steps without a day-of-month are addMonths: `interval` months
      later, the same day clamped to the target month's length. */
  lemma MonthlyPlainStep(d: Date, rule: RecurrenceRule)
    requires rule.pattern == Monthly
    requires rule.dayOfMonth.None? || rule.dayOfMonth.value == 0
    ensures var r := NextOccurrence(d, rule);
      && MonthIndex(r) == MonthIndex(d) + rule.interval
      && r.day == (if d.day <= DaysInMonth(r.year, r.month) then d.day else DaysInMonth(r.year, r.month))
  {
  }

  /** Monthly steps with day-of-month n land `interval` months later, on day
      min(n, days in that month). */
  lemma MonthlyDayStep(d: Date, rule: RecurrenceRule)
    requires rule.pattern == Monthly && rule.dayOfMonth.Some? && 1 <= rule.dayOfMonth.value <= 31
    ensures var r := NextOccurrence(d, rule);
      && MonthIndex(r) == MonthIndex(d) + rule.interval
      && r.day == (if rule.dayOfMonth.value < DaysInMonth(r.year, r.month) then rule.dayOfMonth.value
                   else DaysInMonth(r.year, r.month))
  {
    var nextMonth := AddMonths(d, rule.interval);
    var dim := GetDaysInMonth(nextMonth);
    var day := if rule.dayOfMonth.value < dim then rule.dayOfMonth.value else dim;
    SetDateInMonth(nextMonth, day);
  }

  /** A monthly rule on day 31 steps from January 31, 2024 to February 29. */
  lemma MonthlyClampsToLeapFebruary()
    ensures NextOccurrence(YMD(2024, 1, 31), RecurrenceRule(Monthly, 1, None, None, Some(31))) == YMD(2024, 2, 29)
    ensures NextOccurrence(YMD(2024, 1, 31), RecurrenceRule(Monthly, 1, None, None, None)) == YMD(2024, 2, 29)
  {
    var jan31: Date := YMD(2024, 1, 31);
    var feb29: Date := YMD(2024, 2, 29);
    assert AddMonths(jan31, 1) == feb29;
    assert GetDaysInMonth(feb29) == 29;
    SetDateInMonth(feb29, 29);
  }

  // ===== The occurrence sequence and the visible window =====

  /** The k-th member of the sequence anchor, next(anchor), next(next(anchor)), ...
      Iterate and Successor are written as a pair so that the verifier unfolds
      the step only where IterateStep is called. */
  function Iterate(anchor: Date, rule: RecurrenceRule, k: nat): Date
    decreases k, 0
  {
    if k == 0 then anchor else Successor(anchor, rule, k - 1)
  }

  /** The member after the j-th one. */
  function Successor(anchor: Date, rule: RecurrenceRule, j: nat): Date
    decreases j, 1
  {
    NextOccurrence(Iterate(anchor, rule, j), rule)
  }

  /** Each member is the next occurrence after the one before. */
  lemma IterateStep(anchor: Date, rule: RecurrenceRule, k: nat)
    ensures Iterate(anchor, rule, k + 1) == NextOccurrence(Iterate(anchor, rule, k), rule)
  {
  }

  /** The rule's end date as the engine reads it: absent or '' means no
      bound, text that is not a date is an Invalid Date, which no date is
      before, after or on. */
  datatype EndBound = NoEnd | EndAt(date: Date) | EndInvalid

  function EndBoundOf(rule: RecurrenceRule): (e: EndBound)
    ensures e.NoEnd? <==> rule.endDate.None? || rule.endDate == Some("")
    ensures e.EndAt? ==> rule.endDate.Some? && ParseDateString(rule.endDate.value) == Some(e.date)
    ensures e.EndInvalid? <==> rule.endDate.Some? && rule.endDate.value != "" && ParseDateString(rule.endDate.value).None?
  {
    match rule.endDate
    case None => NoEnd
    case Some(s) =>
      if s == "" then NoEnd
      else match ParseDateString(s)
        case Some(e) => EndAt(e)
        case None => EndInvalid
  }

  predicate WithinEnd(d: Date, end: EndBound) {
    match end
    case NoEnd => true
    case EndAt(e) => !After(d, e)
    case EndInvalid => false
  }

  /** d lies in [rangeStart, rangeEnd] and not after the end bound. */
  predicate InWindow(d: Date, rangeStart: Date, rangeEnd: Date, end: EndBound) {
    !Before(d, rangeStart) && !After(d, rangeEnd) && WithinEnd(d, end)
  }

  /** The members among the first k occurrences that lie in the window, in
      the order of the sequence. */
  function WindowDates(anchor: Date, rule: RecurrenceRule, k: nat, rangeStart: Date, rangeEnd: Date, end: EndBound): seq<Date> {
    if k == 0 then []
    else
      var x := Iterate(anchor, rule, k - 1);
      WindowDates(anchor, rule, k - 1, rangeStart, rangeEnd, end) + (if InWindow(x, rangeStart, rangeEnd, end) then [x] else [])
  }

  /** A number of steps after which a well-formed rule is past rangeEnd. */
  function StepBound(anchor: Date, rangeEnd: Date): nat {
    if DayNumber(rangeEnd) >= DayNumber(anchor) then DayNumber(rangeEnd) - DayNumber(anchor) + 1 else 0
  }

  /** The occurrence dates a chore shows in [rangeStart, rangeEnd]: the anchor
      alone for a non-recurring rule (its end date ignored), otherwise the
      members of the occurrence sequence inside the window. All of them lie
      in [rangeStart, rangeEnd]; those of a recurring rule are not after its
      end bound, and under a well-formed rule they strictly increase. */
  function OccurrenceDates(anchor: Date, rule: RecurrenceRule, rangeStart: Date, rangeEnd: Date): (ds: seq<Date>)
    ensures forall i :: 0 <= i < |ds| ==> !Before(ds[i], rangeStart) && !After(ds[i], rangeEnd)
    ensures Recurring(rule) ==> AllInWindow(ds, rangeStart, rangeEnd, EndBoundOf(rule))
    ensures Recurring(rule) && WellFormed(rule) ==> StrictlyIncreasing(ds)
  {
    if rule.pattern == NoRepeat then
      (if !Before(anchor, rangeStart) && !After(anchor, rangeEnd) then [anchor] else [])
    else
      var n, end := StepBound(anchor, rangeEnd), EndBoundOf(rule);
      WindowSound(anchor, rule, n, rangeStart, rangeEnd, end);
      if WellFormed(rule) then
        WindowIncreasing(anchor, rule, n, rangeStart, rangeEnd, end);
        WindowDates(anchor, rule, n, rangeStart, rangeEnd, end)
      else WindowDates(anchor, rule, n, rangeStart, rangeEnd, end)
  }

  // ===== Events =====

  /** The assignee lookup of the engine: a `find` by id; a null id matches no
      member. A member is found exactly when one has the chore's assignee id,
      and it is a member with that id. */
  function FindAssignee(members: seq<TeamMember>, assigneeId: Option<string>): (m: Option<TeamMember>)
    ensures m.Some? ==> m.value in members && assigneeId == Some(m.value.id)
    ensures m.None? <==> assigneeId.None? || forall i :: 0 <= i < |members| ==> members[i].id != assigneeId.value
  {
    match assigneeId
    case None => None
    case Some(id) => FindMemberById(members, id)
  }

  /** createEvent: a one-day event on `date`, identified by the occurrence
      key of the chore and that date, carrying the date as `yyyy-MM-dd`. */
  function CreateEvent(chore: Chore, date: Date, instance: Option<ChoreInstance>, assignee: Option<TeamMember>): (e: CalendarEvent)
    ensures e.id == GetInstanceKey(chore.id, date)
    ensures e.start == date && e.end == date && e.title == chore.title
    ensures e.resource == EventResource(chore, instance, assignee, FormatDateISO(date))
  {
    var instanceDate := FormatDateISO(date);
    CalendarEvent(chore.id + "_" + instanceDate, chore.title, date, date,
                  EventResource(chore, instance, assignee, instanceDate))
  }

  /** The event of one occurrence date, joined with its override record. */
  function OccurrenceEvent(chore: Chore, date: Date, records: seq<ChoreInstance>, assignee: Option<TeamMember>): CalendarEvent {
    CreateEvent(chore, date, FindInstance(records, chore.id, FormatDateISO(date)), assignee)
  }

  /** One event per date, in the order of the dates. */
  function EventsAt(chore: Chore, dates: seq<Date>, records: seq<ChoreInstance>, assignee: Option<TeamMember>): (es: seq<CalendarEvent>)
    ensures |es| == |dates|
  {
    if dates == [] then []
    else EventsAt(chore, dates[..|dates| - 1], records, assignee) + [OccurrenceEvent(chore, dates[|dates| - 1], records, assignee)]
  }

  /** The events of one chore in [rangeStart, rangeEnd]; none when the
      chore's date is not a date, at most one for a non-recurring chore. Every
      event carries the chore and starts in [rangeStart, rangeEnd]. */
  function ChoreEvents(chore: Chore, rangeStart: Date, rangeEnd: Date, records: seq<ChoreInstance>, members: seq<TeamMember>): (es: seq<CalendarEvent>)
    ensures ParseDateString(chore.date).None? ==> es == []
    ensures chore.recurrence.pattern == NoRepeat ==> |es| <= 1
    ensures EventsInRange(es, chore, rangeStart, rangeEnd)
  {
    match ParseDateString(chore.date)
    case None => []
    case Some(anchor) =>
      var ds := OccurrenceDates(anchor, chore.recurrence, rangeStart, rangeEnd);
      var assignee := FindAssignee(members, chore.assigneeId);
      EventsAtInRange(chore, ds, records, assignee, rangeStart, rangeEnd);
      EventsAt(chore, ds, records, assignee)
  }

  /** Every event is an event of the chore starting in [rangeStart, rangeEnd]. */
  predicate EventsInRange(es: seq<CalendarEvent>, chore: Chore, rangeStart: Date, rangeEnd: Date) {
    forall i :: 0 <= i < |es| ==> es[i].resource.chore == chore && !Before(es[i].start, rangeStart) && !After(es[i].start, rangeEnd)
  }

  /** The events of dates in [rangeStart, rangeEnd] are events of the chore
      in that range. */
  lemma EventsAtInRange(chore: Chore, ds: seq<Date>, records: seq<ChoreInstance>, assignee: Option<TeamMember>, rangeStart: Date, rangeEnd: Date)
    requires forall i :: 0 <= i < |ds| ==> !Before(ds[i], rangeStart) && !After(ds[i], rangeEnd)
    ensures EventsInRange(EventsAt(chore, ds, records, assignee), chore, rangeStart, rangeEnd)
  {
    var es := EventsAt(chore, ds, records, assignee);
    forall i | 0 <= i < |es|
      ensures es[i].resource.chore == chore && !Before(es[i].start, rangeStart) && !After(es[i].start, rangeEnd)
    {
      EventsAtIndex(chore, ds, records, assignee, i);
    }
  }

  /** generateAllEvents: the events of every chore, chore by chore, as many
      as the chores have together. */
  function AllEvents(chores: seq<Chore>, records: seq<ChoreInstance>, members: seq<TeamMember>, rangeStart: Date, rangeEnd: Date): (es: seq<CalendarEvent>)
    ensures |es| == TotalLength(chores, ChoreEventsIn(rangeStart, rangeEnd, records, members))
  {
    FlatMapLength(chores, ChoreEventsIn(rangeStart, rangeEnd, records, members));
    FlatMap(chores, ChoreEventsIn(rangeStart, rangeEnd, records, members))
  }

  /** The per-chore step of generateAllEvents. */
  function ChoreEventsIn(rangeStart: Date, rangeEnd: Date, records: seq<ChoreInstance>, members: seq<TeamMember>): Chore -> seq<CalendarEvent> {
    c => ChoreEvents(c, rangeStart, rangeEnd, records, members)
  }

  // ===== generateInstances =====

  /** generateInstances: fast-forward to rangeStart without emitting, then
      emit every occurrence up to rangeEnd and the rule's end date. */
  method GenerateInstances(chore: Chore, rangeStart: Date, rangeEnd: Date, choreInstances: seq<ChoreInstance>, teamMembers: seq<TeamMember>)
    returns (events: seq<CalendarEvent>)
    requires Recurring(chore.recurrence) ==> WellFormed(chore.recurrence)
    ensures events == ChoreEvents(chore, rangeStart, rangeEnd, choreInstances, teamMembers)
  {
    events := [];
    var assignee := FindAssignee(teamMembers, chore.assigneeId);
    var parsed := ParseDateString(chore.date);
    if parsed.None? {
      // an Invalid Date: every comparison with it is false, so nothing is emitted
      return;
    }
    var choreStartDate := parsed.value;
    var rule := chore.recurrence;

    if rule.pattern == NoRepeat {
      if !Before(choreStartDate, rangeStart) || SameDay(choreStartDate, rangeStart) {
        if Before(choreStartDate, rangeEnd) || SameDay(choreStartDate, rangeEnd) {
          var instanceDate := FormatDateISO(choreStartDate);
          var instance := FindInstance(choreInstances, chore.id, instanceDate);
          events := events + [CreateEvent(chore, choreStartDate, instance, assignee)];
        }
      }
      return;
    }

    var endDate := EndBoundOf(rule);
    ghost var k: nat;
    var currentDate;
    currentDate, k := FastForward(choreStartDate, rule, rangeStart, endDate);
    WindowBeforeStart(choreStartDate, rule, k, rangeStart, rangeEnd, endDate);
    events := EmitOccurrences(chore, choreStartDate, rule, currentDate, k, rangeStart, rangeEnd, endDate, choreInstances, assignee);
  }

  /** The fast-forward loop of generateInstances: step without emitting while
      the cursor is before rangeStart and before the end bound. */
  method FastForward(anchor: Date, rule: RecurrenceRule, rangeStart: Date, endDate: EndBound)
    returns (currentDate: Date, ghost k: nat)
    requires Recurring(rule) && WellFormed(rule)
    ensures Reached(anchor, rule, k, currentDate)
    ensures AllBefore(anchor, rule, k, rangeStart)
  {
    currentDate := anchor;
    k := 0;
    while Before(currentDate, rangeStart) && (endDate.NoEnd? || (endDate.EndAt? && Before(currentDate, endDate.date)))
      invariant Reached(anchor, rule, k, currentDate)
      invariant AllBefore(anchor, rule, k, rangeStart)
      decreases DayNumber(rangeStart) - DayNumber(currentDate)
    {
      SkipStep(anchor, rule, k, currentDate, rangeStart);
      currentDate := Advance(anchor, rule, k, currentDate);
      k := k + 1;
    }
  }

  /** d is the k-th member of the occurrence sequence. */
  predicate Reached(anchor: Date, rule: RecurrenceRule, k: nat, d: Date) {
    Iterate(anchor, rule, k) == d
  }

  /** `currentDate = getNextOccurrence(currentDate, rule)` in either loop:
      the cursor moves to the next member, at least a day later. */
  method Advance(ghost anchor: Date, rule: RecurrenceRule, ghost k: nat, currentDate: Date) returns (r: Date)
    requires Reached(anchor, rule, k, currentDate)
    requires Recurring(rule) && WellFormed(rule)
    ensures Reached(anchor, rule, k + 1, r)
    ensures DayNumber(r) > DayNumber(currentDate)
  {
    NextAdvances(currentDate, rule);
    r := GetNextOccurrence(currentDate, rule);
    IterateStep(anchor, rule, k);
  }

  /** One fast-forward step past a member before rangeStart. */
  lemma SkipStep(anchor: Date, rule: RecurrenceRule, k: nat, d: Date, rangeStart: Date)
    requires AllBefore(anchor, rule, k, rangeStart) && Reached(anchor, rule, k, d) && Before(d, rangeStart)
    ensures AllBefore(anchor, rule, k + 1, rangeStart)
  {
  }

  /** The emission loop of generateInstances, from the k0-th occurrence on:
      emit each occurrence on or after rangeStart until the cursor passes
      rangeEnd or the end bound. */
  method EmitOccurrences(chore: Chore, anchor: Date, rule: RecurrenceRule, start: Date, ghost k0: nat,
                         rangeStart: Date, rangeEnd: Date, endDate: EndBound,
                         choreInstances: seq<ChoreInstance>, assignee: Option<TeamMember>)
    returns (events: seq<CalendarEvent>)
    requires Recurring(rule) && WellFormed(rule)
    requires Reached(anchor, rule, k0, start)
    requires WindowDates(anchor, rule, k0, rangeStart, rangeEnd, endDate) == []
    ensures events == EventsAt(chore, WindowDates(anchor, rule, StepBound(anchor, rangeEnd), rangeStart, rangeEnd, endDate),
                               choreInstances, assignee)
  {
    events := [];
    var currentDate := start;
    ghost var k := k0;
    while (Before(currentDate, rangeEnd) || SameDay(currentDate, rangeEnd))
      && (endDate.NoEnd? || (endDate.EndAt? && (Before(currentDate, endDate.date) || SameDay(currentDate, endDate.date))))
      invariant Reached(anchor, rule, k, currentDate)
      invariant Emitted(chore, anchor, rule, k, rangeStart, rangeEnd, endDate, choreInstances, assignee, events)
      decreases DayNumber(rangeEnd) - DayNumber(currentDate)
    {
      events := EmitOne(chore, anchor, rule, k, currentDate, rangeStart, rangeEnd, endDate, choreInstances, assignee, events);
      currentDate := Advance(anchor, rule, k, currentDate);
      k := k + 1;
    }
    WindowPastEnd(anchor, rule, k, currentDate, rangeStart, rangeEnd, endDate);
  }

  /** The body of the emission loop: push the cursor's event when it is on
      or after rangeStart. */
  method EmitOne(chore: Chore, ghost anchor: Date, ghost rule: RecurrenceRule, ghost k: nat, currentDate: Date,
                 rangeStart: Date, ghost rangeEnd: Date, ghost endDate: EndBound,
                 choreInstances: seq<ChoreInstance>, assignee: Option<TeamMember>, events: seq<CalendarEvent>)
    returns (events': seq<CalendarEvent>)
    requires Emitted(chore, anchor, rule, k, rangeStart, rangeEnd, endDate, choreInstances, assignee, events)
    requires Reached(anchor, rule, k, currentDate) && !After(currentDate, rangeEnd) && WithinEnd(currentDate, endDate)
    ensures Emitted(chore, anchor, rule, k + 1, rangeStart, rangeEnd, endDate, choreInstances, assignee, events')
  {
    events' := events;
    if After(currentDate, rangeStart) || SameDay(currentDate, rangeStart) {
      EmitStep(chore, anchor, rule, k, currentDate, rangeStart, rangeEnd, endDate, choreInstances, assignee, events);
      var instanceDate := FormatDateISO(currentDate);
      var instance := FindInstance(choreInstances, chore.id, instanceDate);
      events' := events' + [CreateEvent(chore, currentDate, instance, assignee)];
    } else {
      SkipEmitStep(chore, anchor, rule, k, currentDate, rangeStart, rangeEnd, endDate, choreInstances, assignee, events);
    }
  }

  /** The events emitted so far are those of the window's dates among the
      first k members. */
  predicate Emitted(chore: Chore, anchor: Date, rule: RecurrenceRule, k: nat, rangeStart: Date, rangeEnd: Date, end: EndBound,
                    records: seq<ChoreInstance>, assignee: Option<TeamMember>, events: seq<CalendarEvent>) {
    events == EventsAt(chore, WindowDates(anchor, rule, k, rangeStart, rangeEnd, end), records, assignee)
  }

  // ===== Lemmas behind generateInstances =====

  /** The first k members of the occurrence sequence are before d. */
  predicate AllBefore(anchor: Date, rule: RecurrenceRule, k: nat, d: Date) {
    k == 0 || (AllBefore(anchor, rule, k - 1, d) && Before(Iterate(anchor, rule, k - 1), d))
  }

  /** The day number of the k-th member. */
  function DayOf(anchor: Date, rule: RecurrenceRule, k: nat): int {
    DayNumber(Iterate(anchor, rule, k))
  }

  /** Each member of the occurrence sequence is later than the one before. */
  lemma IterateAdvances(anchor: Date, rule: RecurrenceRule, k: nat)
    requires Recurring(rule) && WellFormed(rule)
    ensures DayOf(anchor, rule, k + 1) > DayOf(anchor, rule, k)
  {
    IterateStep(anchor, rule, k);
    NextAdvances(Iterate(anchor, rule, k), rule);
  }

  /** Each step of a well-formed rule adds at least one day. */
  lemma {:induction false} IterateGrowth(anchor: Date, rule: RecurrenceRule, j: nat, k: nat)
    requires Recurring(rule) && WellFormed(rule) && j <= k
    ensures DayOf(anchor, rule, k) >= DayOf(anchor, rule, j) + (k - j)
    decreases k
  {
    if j < k {
      IterateGrowth(anchor, rule, j, k - 1);
      IterateAdvances(anchor, rule, k - 1);
    }
  }

  lemma EventsAtAppend(chore: Chore, ds: seq<Date>, x: Date, records: seq<ChoreInstance>, assignee: Option<TeamMember>)
    ensures EventsAt(chore, ds + [x], records, assignee) == EventsAt(chore, ds, records, assignee) + [OccurrenceEvent(chore, x, records, assignee)]
  {
    assert (ds + [x])[..|ds|] == ds;
  }

  /** An occurrence inside the window extends the events by its event. */
  lemma EmitStep(chore: Chore, anchor: Date, rule: RecurrenceRule, k: nat, d: Date, rangeStart: Date, rangeEnd: Date, end: EndBound,
                 records: seq<ChoreInstance>, assignee: Option<TeamMember>, events: seq<CalendarEvent>)
    requires Emitted(chore, anchor, rule, k, rangeStart, rangeEnd, end, records, assignee, events)
    requires Reached(anchor, rule, k, d) && InWindow(d, rangeStart, rangeEnd, end)
    ensures Emitted(chore, anchor, rule, k + 1, rangeStart, rangeEnd, end, records, assignee,
                    events + [CreateEvent(chore, d, FindInstance(records, chore.id, FormatDateISO(d)), assignee)])
  {
    EventsAtAppend(chore, WindowDates(anchor, rule, k, rangeStart, rangeEnd, end), d, records, assignee);
  }

  /** An occurrence before the window adds no event. */
  lemma SkipEmitStep(chore: Chore, anchor: Date, rule: RecurrenceRule, k: nat, d: Date, rangeStart: Date, rangeEnd: Date, end: EndBound,
                     records: seq<ChoreInstance>, assignee: Option<TeamMember>, events: seq<CalendarEvent>)
    requires Emitted(chore, anchor, rule, k, rangeStart, rangeEnd, end, records, assignee, events)
    requires Reached(anchor, rule, k, d) && !InWindow(d, rangeStart, rangeEnd, end)
    ensures Emitted(chore, anchor, rule, k + 1, rangeStart, rangeEnd, end, records, assignee, events)
  {
    var ds := WindowDates(anchor, rule, k, rangeStart, rangeEnd, end);
    assert ds + [] == ds;
  }

  /** Members outside the window leave the window's dates unchanged. */
  lemma {:induction false} WindowStable(anchor: Date, rule: RecurrenceRule, a: nat, b: nat, rangeStart: Date, rangeEnd: Date, end: EndBound)
    requires a <= b
    requires forall j :: a <= j < b ==> !InWindow(Iterate(anchor, rule, j), rangeStart, rangeEnd, end)
    ensures WindowDates(anchor, rule, b, rangeStart, rangeEnd, end) == WindowDates(anchor, rule, a, rangeStart, rangeEnd, end)
    decreases b
  {
    if a < b {
      WindowStable(anchor, rule, a, b - 1, rangeStart, rangeEnd, end);
      var ds := WindowDates(anchor, rule, b - 1, rangeStart, rangeEnd, end);
      assert ds + [] == ds;
    }
  }

  /** After the fast-forward phase nothing is in the window yet. */
  lemma {:induction false} WindowBeforeStart(anchor: Date, rule: RecurrenceRule, k: nat, rangeStart: Date, rangeEnd: Date, end: EndBound)
    requires AllBefore(anchor, rule, k, rangeStart)
    ensures WindowDates(anchor, rule, k, rangeStart, rangeEnd, end) == []
  {
    if k > 0 {
      WindowBeforeStart(anchor, rule, k - 1, rangeStart, rangeEnd, end);
    }
  }

  /** Once the cursor is past rangeEnd or the end bound, so is every later
      member, and the first StepBound members hold all of the window. */
  lemma WindowPastEnd(anchor: Date, rule: RecurrenceRule, k: nat, d: Date, rangeStart: Date, rangeEnd: Date, end: EndBound)
    requires Recurring(rule) && WellFormed(rule) && Reached(anchor, rule, k, d)
    requires After(d, rangeEnd) || !WithinEnd(d, end)
    ensures WindowDates(anchor, rule, k, rangeStart, rangeEnd, end)
         == WindowDates(anchor, rule, StepBound(anchor, rangeEnd), rangeStart, rangeEnd, end)
  {
    var n := StepBound(anchor, rangeEnd);
    forall j | k <= j
      ensures !InWindow(Iterate(anchor, rule, j), rangeStart, rangeEnd, end)
    {
      IterateGrowth(anchor, rule, k, j);
    }
    forall j | n <= j
      ensures !InWindow(Iterate(anchor, rule, j), rangeStart, rangeEnd, end)
    {
      IterateGrowth(anchor, rule, 0, j);
    }
    if k <= n {
      WindowStable(anchor, rule, k, n, rangeStart, rangeEnd, end);
    } else {
      WindowStable(anchor, rule, n, k, rangeStart, rangeEnd, end);
    }
  }

  // ===== What the emitted dates are =====

  /** Every date lies in the window. */
  predicate AllInWindow(ds: seq<Date>, rangeStart: Date, rangeEnd: Date, end: EndBound) {
    forall i :: 0 <= i < |ds| ==> InWindow(ds[i], rangeStart, rangeEnd, end)
  }

  /** Every date is one of the first k members of the occurrence sequence. */
  predicate AllMembers(anchor: Date, rule: RecurrenceRule, k: nat, ds: seq<Date>) {
    forall i :: 0 <= i < |ds| ==> exists j: nat :: j < k && ds[i] == Iterate(anchor, rule, j)
  }

  /** Every date of the window among the first k members is in the window
      and is one of those members. */
  lemma {:induction false} WindowSound(anchor: Date, rule: RecurrenceRule, k: nat, rangeStart: Date, rangeEnd: Date, end: EndBound)
    ensures AllInWindow(WindowDates(anchor, rule, k, rangeStart, rangeEnd, end), rangeStart, rangeEnd, end)
    ensures AllMembers(anchor, rule, k, WindowDates(anchor, rule, k, rangeStart, rangeEnd, end))
  {
    if k > 0 {
      var prev := WindowDates(anchor, rule, k - 1, rangeStart, rangeEnd, end);
      var x := Iterate(anchor, rule, k - 1);
      var ds := WindowDates(anchor, rule, k, rangeStart, rangeEnd, end);
      WindowSound(anchor, rule, k - 1, rangeStart, rangeEnd, end);
      if InWindow(x, rangeStart, rangeEnd, end) {
        assert ds == prev + [x];
        forall i | 0 <= i < |ds|
          ensures InWindow(ds[i], rangeStart, rangeEnd, end)
          ensures exists j: nat :: j < k && ds[i] == Iterate(anchor, rule, j)
        {
          if i < |prev| {
            assert ds[i] == prev[i];
            var j: nat :| j < k - 1 && prev[i] == Iterate(anchor, rule, j);
          }
        }
      } else {
        assert ds == prev + [];
        forall i | 0 <= i < |ds|
          ensures exists j: nat :: j < k && ds[i] == Iterate(anchor, rule, j)
        {
          var j: nat :| j < k - 1 && prev[i] == Iterate(anchor, rule, j);
        }
      }
    }
  }

  /** Each date is strictly before the next. */
  predicate StrictlyIncreasing(ds: seq<Date>) {
    forall i, j :: 0 <= i < j < |ds| ==> Before(ds[i], ds[j])
  }

  /** Every date has a day number below the bound. */
  predicate AllBelow(ds: seq<Date>, bound: int) {
    forall i :: 0 <= i < |ds| ==> DayNumber(ds[i]) < bound
  }

  /** Under a well-formed rule the window's dates strictly increase, so no
      date is emitted twice, and all of them come before the k-th member. */
  lemma {:induction false} WindowIncreasing(anchor: Date, rule: RecurrenceRule, k: nat, rangeStart: Date, rangeEnd: Date, end: EndBound)
    requires Recurring(rule) && WellFormed(rule)
    ensures StrictlyIncreasing(WindowDates(anchor, rule, k, rangeStart, rangeEnd, end))
    ensures AllBelow(WindowDates(anchor, rule, k, rangeStart, rangeEnd, end), DayOf(anchor, rule, k))
  {
    if k > 0 {
      var prev := WindowDates(anchor, rule, k - 1, rangeStart, rangeEnd, end);
      var x := Iterate(anchor, rule, k - 1);
      var ds := WindowDates(anchor, rule, k, rangeStart, rangeEnd, end);
      WindowIncreasing(anchor, rule, k - 1, rangeStart, rangeEnd, end);
      IterateAdvances(anchor, rule, k - 1);
      if InWindow(x, rangeStart, rangeEnd, end) {
        AppendIncreasing(prev, x, DayOf(anchor, rule, k));
      } else {
        assert ds == prev + [];
        AllBelowWeaken(prev, DayOf(anchor, rule, k - 1), DayOf(anchor, rule, k));
      }
    }
  }

  /** Appending a date later than all of an increasing list keeps it
      increasing. */
  lemma AppendIncreasing(ds: seq<Date>, x: Date, bound: int)
    requires StrictlyIncreasing(ds) && AllBelow(ds, DayNumber(x)) && DayNumber(x) < bound
    ensures StrictlyIncreasing(ds + [x]) && AllBelow(ds + [x], bound)
  {
    var ds' := ds + [x];
    forall i, j | 0 <= i < j < |ds'|
      ensures Before(ds'[i], ds'[j])
    {
      assert ds'[i] == ds[i];
      if j < |ds| { assert ds'[j] == ds[j]; }
    }
    forall i | 0 <= i < |ds'|
      ensures DayNumber(ds'[i]) < bound
    {
      if i < |ds| { assert ds'[i] == ds[i]; }
    }
  }

  lemma AllBelowWeaken(ds: seq<Date>, a: int, b: int)
    requires AllBelow(ds, a) && a <= b
    ensures AllBelow(ds, b)
  {
  }

  /** Every member among the first k that lies in the window is one of the
      window's dates. */
  lemma {:induction false} WindowComplete(anchor: Date, rule: RecurrenceRule, k: nat, j: nat, rangeStart: Date, rangeEnd: Date, end: EndBound)
    requires j < k && InWindow(Iterate(anchor, rule, j), rangeStart, rangeEnd, end)
    ensures Iterate(anchor, rule, j) in WindowDates(anchor, rule, k, rangeStart, rangeEnd, end)
  {
    if j < k - 1 {
      WindowComplete(anchor, rule, k - 1, j, rangeStart, rangeEnd, end);
    }
  }

  /** A member of the occurrence sequence that lies in the window is one
      of the occurrence dates: the first StepBound members reach past
      rangeEnd. */
  lemma OccurrenceComplete(anchor: Date, rule: RecurrenceRule, rangeStart: Date, rangeEnd: Date, j: nat)
    requires Recurring(rule) && WellFormed(rule)
    requires InWindow(Iterate(anchor, rule, j), rangeStart, rangeEnd, EndBoundOf(rule))
    ensures Iterate(anchor, rule, j) in OccurrenceDates(anchor, rule, rangeStart, rangeEnd)
  {
    IterateGrowth(anchor, rule, 0, j);
    WindowComplete(anchor, rule, StepBound(anchor, rangeEnd), j, rangeStart, rangeEnd, EndBoundOf(rule));
  }

  /** The occurrence dates of a recurring chore are exactly the members of
      its occurrence sequence inside [rangeStart, rangeEnd] and not after the
      end bound, in strictly increasing order. */
  lemma OccurrenceDatesExact(anchor: Date, rule: RecurrenceRule, rangeStart: Date, rangeEnd: Date)
    requires Recurring(rule) && WellFormed(rule)
    ensures StrictlyIncreasing(OccurrenceDates(anchor, rule, rangeStart, rangeEnd))
    ensures AllInWindow(OccurrenceDates(anchor, rule, rangeStart, rangeEnd), rangeStart, rangeEnd, EndBoundOf(rule))
    ensures AllMembers(anchor, rule, StepBound(anchor, rangeEnd), OccurrenceDates(anchor, rule, rangeStart, rangeEnd))
    ensures forall j: nat :: InWindow(Iterate(anchor, rule, j), rangeStart, rangeEnd, EndBoundOf(rule))
                         ==> Iterate(anchor, rule, j) in OccurrenceDates(anchor, rule, rangeStart, rangeEnd)
  {
    var end := EndBoundOf(rule);
    var n := StepBound(anchor, rangeEnd);
    var ds := OccurrenceDates(anchor, rule, rangeStart, rangeEnd);
    assert ds == WindowDates(anchor, rule, n, rangeStart, rangeEnd, end);
    WindowIncreasing(anchor, rule, n, rangeStart, rangeEnd, end);
    WindowSound(anchor, rule, n, rangeStart, rangeEnd, end);
    forall j: nat | InWindow(Iterate(anchor, rule, j), rangeStart, rangeEnd, end)
      ensures Iterate(anchor, rule, j) in ds
    {
      OccurrenceComplete(anchor, rule, rangeStart, rangeEnd, j);
    }
  }

  /** The anchor of a recurring chore is shown when it lies in the window,
      even on a weekday the rule does not select. */
  lemma AnchorAlwaysCounts(anchor: Date, rule: RecurrenceRule, rangeStart: Date, rangeEnd: Date)
    requires Recurring(rule) && WellFormed(rule)
    requires InWindow(anchor, rangeStart, rangeEnd, EndBoundOf(rule))
    ensures anchor in OccurrenceDates(anchor, rule, rangeStart, rangeEnd)
  {
    assert Iterate(anchor, rule, 0) == anchor;
    OccurrenceComplete(anchor, rule, rangeStart, rangeEnd, 0);
  }

  /** An inverted range (rangeEnd before rangeStart) shows nothing, for
      recurring and non-recurring rules alike. */
  lemma InvertedRangeIsEmpty(anchor: Date, rule: RecurrenceRule, rangeStart: Date, rangeEnd: Date)
    requires Before(rangeEnd, rangeStart)
    ensures OccurrenceDates(anchor, rule, rangeStart, rangeEnd) == []
  {
    if rule.pattern != NoRepeat {
      WindowStable(anchor, rule, 0, StepBound(anchor, rangeEnd), rangeStart, rangeEnd, EndBoundOf(rule));
    }
  }

  /** A non-recurring chore shows one event exactly when its date lies in
      [rangeStart, rangeEnd], whatever its end date, and none otherwise. */
  lemma NoRepeatEvents(chore: Chore, anchor: Date, rangeStart: Date, rangeEnd: Date, records: seq<ChoreInstance>, members: seq<TeamMember>)
    requires ParseDateString(chore.date) == Some(anchor) && chore.recurrence.pattern == NoRepeat
    ensures var es := ChoreEvents(chore, rangeStart, rangeEnd, records, members);
      && (|es| == 1 <==> !Before(anchor, rangeStart) && !After(anchor, rangeEnd))
      && (|es| == 1 ==> es[0] == OccurrenceEvent(chore, anchor, records, FindAssignee(members, chore.assigneeId)))
      && (|es| != 1 ==> es == [])
  {
  }

  /** The i-th event is the event of the i-th date. */
  lemma {:induction false} EventsAtIndex(chore: Chore, ds: seq<Date>, records: seq<ChoreInstance>, assignee: Option<TeamMember>, i: int)
    requires 0 <= i < |ds|
    ensures EventsAt(chore, ds, records, assignee)[i] == OccurrenceEvent(chore, ds[i], records, assignee)
  {
    if i < |ds| - 1 {
      EventsAtIndex(chore, ds[..|ds| - 1], records, assignee, i);
    }
  }

  /** The i-th event of a list of dates: its id is the occurrence key of the
      i-th date, its title is the chore's, it starts and ends on that date,
      and it carries the chore, the first override record with that key and
      the assignee. */
  lemma EventAtFields(chore: Chore, ds: seq<Date>, records: seq<ChoreInstance>, assignee: Option<TeamMember>, i: int)
    requires 0 <= i < |ds|
    ensures var e := EventsAt(chore, ds, records, assignee)[i];
      && e.id == GetInstanceKey(chore.id, ds[i])
      && e.title == chore.title && e.start == ds[i] && e.end == ds[i]
      && e.resource == EventResource(chore, FindInstance(records, chore.id, FormatDateISO(ds[i])), assignee, FormatDateISO(ds[i]))
  {
    EventsAtIndex(chore, ds, records, assignee, i);
  }

  /** Every event of a chore has the fields of its occurrence date, which
      lies in [rangeStart, rangeEnd]; the assignee is the first member with
      the chore's assignee id. */
  lemma ChoreEventFields(chore: Chore, rangeStart: Date, rangeEnd: Date, records: seq<ChoreInstance>, members: seq<TeamMember>, i: int)
    requires 0 <= i < |ChoreEvents(chore, rangeStart, rangeEnd, records, members)|
    ensures var e := ChoreEvents(chore, rangeStart, rangeEnd, records, members)[i];
      && e.id == GetInstanceKey(chore.id, e.start)
      && e.title == chore.title && e.start == e.end
      && !Before(e.start, rangeStart) && !After(e.start, rangeEnd)
      && e.resource == EventResource(chore, FindInstance(records, chore.id, FormatDateISO(e.start)),
                                     FindAssignee(members, chore.assigneeId), FormatDateISO(e.start))
  {
    var anchor := ParseDateString(chore.date).value;
    var ds := OccurrenceDates(anchor, chore.recurrence, rangeStart, rangeEnd);
    var assignee := FindAssignee(members, chore.assigneeId);
    assert ChoreEvents(chore, rangeStart, rangeEnd, records, members) == EventsAt(chore, ds, records, assignee);
    EventAtFields(chore, ds, records, assignee, i);
  }

  /** When the range lies within years 1..9999 the events of one chore have
      pairwise distinct ids. */
  lemma ChoreEventIdsDistinct(chore: Chore, rangeStart: Date, rangeEnd: Date, records: seq<ChoreInstance>, members: seq<TeamMember>)
    requires Recurring(chore.recurrence) ==> WellFormed(chore.recurrence)
    requires rangeStart.year >= 1 && rangeEnd.year <= 9999
    ensures var es := ChoreEvents(chore, rangeStart, rangeEnd, records, members);
      forall i, j :: 0 <= i < j < |es| ==> es[i].id != es[j].id
  {
    var es := ChoreEvents(chore, rangeStart, rangeEnd, records, members);
    if |es| > 1 {
      var anchor := ParseDateString(chore.date).value;
      var rule := chore.recurrence;
      OccurrenceDatesExact(anchor, rule, rangeStart, rangeEnd);
      var ds := OccurrenceDates(anchor, rule, rangeStart, rangeEnd);
      forall i, j | 0 <= i < j < |es|
        ensures es[i].id != es[j].id
      {
        ChoreEventFields(chore, rangeStart, rangeEnd, records, members, i);
        ChoreEventFields(chore, rangeStart, rangeEnd, records, members, j);
        EventsAtIndex(chore, ds, records, FindAssignee(members, chore.assigneeId), i);
        EventsAtIndex(chore, ds, records, FindAssignee(members, chore.assigneeId), j);
        SameDayIsEqual(ds[i], ds[j]);
        BeforeIsLexicographic(ds[i], rangeStart);
        BeforeIsLexicographic(rangeEnd, ds[i]);
        BeforeIsLexicographic(ds[j], rangeStart);
        BeforeIsLexicographic(rangeEnd, ds[j]);
        if es[i].id == es[j].id {
          InstanceKeyInjective(chore.id, ds[i], ds[j]);
        }
      }
    }
  }

  // ===== Restarting the expansion at a later range start =====

  /** d is a member of the occurrence sequence of anchor under rule. */
  ghost predicate IsOccurrence(anchor: Date, rule: RecurrenceRule, d: Date) {
    exists j: nat :: Iterate(anchor, rule, j) == d
  }

  /** The dates a recurring chore shows in a window are exactly the members
      of its occurrence sequence inside the window. */
  lemma OccurrenceDatesMembers(anchor: Date, rule: RecurrenceRule, rangeStart: Date, rangeEnd: Date, d: Date)
    requires Recurring(rule) && WellFormed(rule)
    ensures d in OccurrenceDates(anchor, rule, rangeStart, rangeEnd)
        <==> IsOccurrence(anchor, rule, d) && InWindow(d, rangeStart, rangeEnd, EndBoundOf(rule))
  {
    var ds := OccurrenceDates(anchor, rule, rangeStart, rangeEnd);
    OccurrenceDatesExact(anchor, rule, rangeStart, rangeEnd);
    if d in ds {
      var i :| 0 <= i < |ds| && ds[i] == d;
      var j: nat :| j < StepBound(anchor, rangeEnd) && ds[i] == Iterate(anchor, rule, j);
    }
  }

  /** ds without its first date when that date is d. */
  function DropLeading(ds: seq<Date>, d: Date): (r: seq<Date>)
    ensures r == ds || (ds != [] && ds[0] == d && r == ds[1..])
  {
    if ds != [] && ds[0] == d then ds[1..] else ds
  }

  /** Dropping a leading d from increasing dates, none before d, leaves the
      increasing dates after d. */
  lemma DropLeadingMembers(ds: seq<Date>, d: Date)
    requires StrictlyIncreasing(ds)
    requires forall i :: 0 <= i < |ds| ==> !Before(ds[i], d)
    ensures StrictlyIncreasing(DropLeading(ds, d))
    ensures forall i :: 0 <= i < |DropLeading(ds, d)| ==> Before(d, DropLeading(ds, d)[i])
    ensures forall x :: x in DropLeading(ds, d) <==> x in ds && x != d
  {
    var r := DropLeading(ds, d);
    if ds != [] && ds[0] != d {
      SameDayIsEqual(ds[0], d);
    }
    forall x | x in ds && x != d
      ensures x in r
    {
      var k :| 0 <= k < |ds| && ds[k] == x;
      if r != ds {
        assert x == r[k - 1];
      }
    }
  }

  /** Increasing dates none after d, then increasing dates all after d, are
      increasing. */
  lemma ConcatIncreasing(p: seq<Date>, q: seq<Date>, d: Date)
    requires StrictlyIncreasing(p) && StrictlyIncreasing(q)
    requires forall i :: 0 <= i < |p| ==> !After(p[i], d)
    requires forall i :: 0 <= i < |q| ==> Before(d, q[i])
    ensures StrictlyIncreasing(p + q)
  {
    forall i, j | 0 <= i < j < |p + q|
      ensures Before((p + q)[i], (p + q)[j])
    {
      if j < |p| {
        assert (p + q)[i] == p[i] && (p + q)[j] == p[j];
      } else if i < |p| {
        assert (p + q)[i] == p[i] && (p + q)[j] == q[j - |p|];
      } else {
        assert (p + q)[i] == q[i - |p|] && (p + q)[j] == q[j - |p|];
      }
    }
  }

  /** Both lists minus their first date keep the same members. */
  lemma TailMembers(xs: seq<Date>, x: Date)
    requires StrictlyIncreasing(xs) && xs != []
    ensures x in xs[1..] <==> x in xs && x != xs[0]
  {
    if x in xs[1..] {
      var k :| 0 <= k < |xs| - 1 && xs[1..][k] == x;
      assert Before(xs[0], xs[k + 1]);
    }
    if x in xs && x != xs[0] {
      var k :| 0 <= k < |xs| && xs[k] == x;
      assert xs[1..][k - 1] == x;
    }
  }

  lemma FirstIsMember(xs: seq<Date>)
    ensures xs == [] || xs[0] in xs
  {
  }

  /** Two strictly increasing lists of dates with the same members are equal. */
  lemma {:induction false} IncreasingSameMembers(xs: seq<Date>, ys: seq<Date>)
    requires StrictlyIncreasing(xs) && StrictlyIncreasing(ys)
    requires forall x :: x in xs <==> x in ys
    ensures xs == ys
    decreases |xs|
  {
    if xs == [] || ys == [] {
      FirstIsMember(xs);
      FirstIsMember(ys);
    } else {
      assert xs[0] in ys && ys[0] in xs;
      assert xs[0] == ys[0];
      forall x
        ensures x in xs[1..] <==> x in ys[1..]
      {
        TailMembers(xs, x);
        TailMembers(ys, x);
      }
      IncreasingSameMembers(xs[1..], ys[1..]);
      assert xs == [xs[0]] + xs[1..] && ys == [ys[0]] + ys[1..];
    }
  }

  /** A date lies in the window [a, c] exactly when it lies in [a, b] or,
      being other than b, in [b, c]. */
  lemma WindowSplit(x: Date, a: Date, b: Date, c: Date, end: EndBound)
    requires !Before(b, a) && !Before(c, b)
    ensures InWindow(x, a, c, end) <==> InWindow(x, a, b, end) || (InWindow(x, b, c, end) && x != b)
  {
    SameDayIsEqual(x, b);
  }

  /** One date's share of Restart for a recurring rule. */
  lemma RestartMember(anchor: Date, rule: RecurrenceRule, a: Date, b: Date, c: Date, x: Date)
    requires Recurring(rule) && WellFormed(rule)
    requires !Before(b, a) && !Before(c, b)
    ensures x in OccurrenceDates(anchor, rule, a, c)
        <==> x in OccurrenceDates(anchor, rule, a, b) || (x in OccurrenceDates(anchor, rule, b, c) && x != b)
  {
    OccurrenceDatesMembers(anchor, rule, a, c, x);
    OccurrenceDatesMembers(anchor, rule, a, b, x);
    OccurrenceDatesMembers(anchor, rule, b, c, x);
    WindowSplit(x, a, b, c, EndBoundOf(rule));
  }

  /** Restart for a recurring rule: both sides are increasing and have the
      same members. */
  lemma RestartRecurring(anchor: Date, rule: RecurrenceRule, a: Date, b: Date, c: Date)
    requires Recurring(rule) && WellFormed(rule)
    requires !Before(b, a) && !Before(c, b)
    ensures OccurrenceDates(anchor, rule, a, c)
         == OccurrenceDates(anchor, rule, a, b) + DropLeading(OccurrenceDates(anchor, rule, b, c), b)
  {
    var whole := OccurrenceDates(anchor, rule, a, c);
    var p := OccurrenceDates(anchor, rule, a, b);
    var r := OccurrenceDates(anchor, rule, b, c);
    var q := DropLeading(r, b);
    OccurrenceDatesExact(anchor, rule, a, c);
    OccurrenceDatesExact(anchor, rule, a, b);
    OccurrenceDatesExact(anchor, rule, b, c);
    DropLeadingMembers(r, b);
    ConcatIncreasing(p, q, b);
    forall x
      ensures x in whole <==> x in p + q
    {
      RestartMember(anchor, rule, a, b, c, x);
    }
    IncreasingSameMembers(whole, p + q);
  }

  /** Expanding [a, c] gives the dates of [a, b] followed by those of [b, c],
      with b, which lies in both windows, counted once: the expansion can be
      restarted at any later range start. */
  lemma Restart(anchor: Date, rule: RecurrenceRule, a: Date, b: Date, c: Date)
    requires Recurring(rule) ==> WellFormed(rule)
    requires !Before(b, a) && !Before(c, b)
    ensures OccurrenceDates(anchor, rule, a, c)
         == OccurrenceDates(anchor, rule, a, b) + DropLeading(OccurrenceDates(anchor, rule, b, c), b)
  {
    if Recurring(rule) {
      RestartRecurring(anchor, rule, a, b, c);
    } else if anchor == b {
      assert DropLeading(OccurrenceDates(anchor, rule, b, c), b) == [];
      assert OccurrenceDates(anchor, rule, a, b) + [] == [b];
    } else {
      SameDayIsEqual(anchor, b);
    }
  }

  /** es without its first event when that event starts on d. */
  function DropLeadingEvent(es: seq<CalendarEvent>, d: Date): (r: seq<CalendarEvent>)
    ensures r == es || (es != [] && es[0].start == d && r == es[1..])
  {
    if es != [] && es[0].start == d then es[1..] else es
  }

  /** The events of two lists of dates, one after the other. */
  lemma {:induction false} EventsAtConcat(chore: Chore, p: seq<Date>, q: seq<Date>, records: seq<ChoreInstance>, assignee: Option<TeamMember>)
    ensures EventsAt(chore, p + q, records, assignee) == EventsAt(chore, p, records, assignee) + EventsAt(chore, q, records, assignee)
    decreases |q|
  {
    if q == [] {
      assert p + q == p;
    } else {
      var q' := q[..|q| - 1];
      assert (p + q)[..|p + q| - 1] == p + q';
      assert (p + q)[|p + q| - 1] == q[|q| - 1];
      EventsAtConcat(chore, p, q', records, assignee);
    }
  }

  /** The events of the dates after the first are the events after the first. */
  lemma EventsAtTail(chore: Chore, ds: seq<Date>, records: seq<ChoreInstance>, assignee: Option<TeamMember>)
    requires ds != []
    ensures EventsAt(chore, ds[1..], records, assignee) == EventsAt(chore, ds, records, assignee)[1..]
  {
    var es := EventsAt(chore, ds, records, assignee);
    var ts := EventsAt(chore, ds[1..], records, assignee);
    forall i | 0 <= i < |ts|
      ensures ts[i] == es[i + 1]
    {
      EventsAtIndex(chore, ds[1..], records, assignee, i);
      EventsAtIndex(chore, ds, records, assignee, i + 1);
    }
  }

  /** Restart lifted to the events of a chore: the events of [a, c] are the
      events of [a, b] followed by those of [b, c], the event on b counted
      once. */
  lemma ChoreEventsRestart(chore: Chore, a: Date, b: Date, c: Date, records: seq<ChoreInstance>, members: seq<TeamMember>)
    requires Recurring(chore.recurrence) ==> WellFormed(chore.recurrence)
    requires !Before(b, a) && !Before(c, b)
    ensures ChoreEvents(chore, a, c, records, members)
         == ChoreEvents(chore, a, b, records, members) + DropLeadingEvent(ChoreEvents(chore, b, c, records, members), b)
  {
    match ParseDateString(chore.date)
    case None =>
    case Some(anchor) =>
      var rule := chore.recurrence;
      var assignee := FindAssignee(members, chore.assigneeId);
      var r := OccurrenceDates(anchor, rule, b, c);
      Restart(anchor, rule, a, b, c);
      EventsAtConcat(chore, OccurrenceDates(anchor, rule, a, b), DropLeading(r, b), records, assignee);
      EventsAtDropLeading(chore, r, b, records, assignee);
  }

  /** The events of dates without a leading b are the events without a
      leading event on b. */
  lemma EventsAtDropLeading(chore: Chore, ds: seq<Date>, b: Date, records: seq<ChoreInstance>, assignee: Option<TeamMember>)
    ensures EventsAt(chore, DropLeading(ds, b), records, assignee) == DropLeadingEvent(EventsAt(chore, ds, records, assignee), b)
  {
    if ds != [] {
      EventsAtIndex(chore, ds, records, assignee, 0);
      if ds[0] == b {
        EventsAtTail(chore, ds, records, assignee);
      }
    }
  }

  // ===== generateAllEvents =====

  /** The events of a list of chores split at any point are the events of
      the two parts, one after the other: no sorting across chores. */
  lemma AllEventsAppend(a: seq<Chore>, b: seq<Chore>, records: seq<ChoreInstance>, members: seq<TeamMember>, rangeStart: Date, rangeEnd: Date)
    ensures AllEvents(a + b, records, members, rangeStart, rangeEnd)
         == AllEvents(a, records, members, rangeStart, rangeEnd) + AllEvents(b, records, members, rangeStart, rangeEnd)
  {
    FlatMapAppend(a, b, ChoreEventsIn(rangeStart, rangeEnd, records, members));
  }

  /** A single chore's share of generateAllEvents is its own events. */
  lemma AllEventsSingle(c: Chore, records: seq<ChoreInstance>, members: seq<TeamMember>, rangeStart: Date, rangeEnd: Date)
    ensures AllEvents([c], records, members, rangeStart, rangeEnd) == ChoreEvents(c, rangeStart, rangeEnd, records, members)
  {
    var f := ChoreEventsIn(rangeStart, rangeEnd, records, members);
    assert [c][1..] == [];
    assert FlatMap([c], f) == f(c) + FlatMap([], f);
  }

  /** An event is among generateAllEvents exactly when it is among the events
      of one of the chores. */
  lemma AllEventsMembership(chores: seq<Chore>, records: seq<ChoreInstance>, members: seq<TeamMember>, rangeStart: Date, rangeEnd: Date, e: CalendarEvent)
    ensures e in AllEvents(chores, records, members, rangeStart, rangeEnd)
        <==> exists i :: 0 <= i < |chores| && e in ChoreEvents(chores[i], rangeStart, rangeEnd, records, members)
  {
    var f := ChoreEventsIn(rangeStart, rangeEnd, records, members);
    FlatMapMembership(chores, f, e);
    forall i | 0 <= i < |chores|
      ensures f(chores[i]) == ChoreEvents(chores[i], rangeStart, rangeEnd, records, members)
    {
    }
  }
}
