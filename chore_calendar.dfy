/** The calendar screen: the date range it asks the recurrence engine to
    fill for each view, the events it shows, how it renders completion and
    the assignee, and the store actions its handlers dispatch. */
module ChoreCalendar {
  import opened Common
  import opened CalendarDate
  import opened DateFormat
  import opened Types
  import opened Recurrence
  import opened ChoreContext
  import TeamContext
  import opened JsBuiltins
  import opened ChoreForm

  /** The calendar views; any view other than month, week and day (work
      week, agenda) takes the day branch. */
  datatype View = Month | Week | Day | OtherView

  datatype Range = Range(rangeStart: Date, rangeEnd: Date)

  /** Days of slack around the visible dates. */
  function Buffer(view: View): int {
    if view == Month then 7 else if view == Week then 1 else 0
  }

  /** The range the calendar generates events for: in every view it starts
      before it ends and holds the date shown. */
  function VisibleRange(view: View, date: Date): (r: Range)
    ensures Before(r.rangeStart, r.rangeEnd)
    ensures !Before(date, r.rangeStart) && !After(date, r.rangeEnd)
  {
    var buffer := Buffer(view);
    if view == Month then MonthWindow(date, buffer)
    else if view == Week then WeekWindow(date, buffer)
    else DayWindow(date, buffer)
  }

  /** The month, widened by `buffer` days on each side. */
  function MonthWindow(date: Date, buffer: int): Range {
    Range(AddDays(StartOfMonth(date), -buffer), AddDays(EndOfMonth(date), buffer))
  }

  /** From `buffer` days before Sunday, for 7 + 2 * buffer days. */
  function WeekWindow(date: Date, buffer: int): Range {
    var start := AddDays(StartOfWeek(date), -buffer);
    Range(start, AddDays(start, 7 + buffer * 2))
  }

  function DayWindow(date: Date, buffer: int): Range {
    Range(AddDays(date, -buffer), AddDays(date, buffer + 1))
  }

  /** The events on screen: every active chore expanded over the visible
      range, joined with all override records and the active members. Each
      belongs to a chore of the store that is not deleted, and starts in the
      visible range. */
  function CalendarEvents(state: ChoreState, members: seq<TeamMember>, view: View, date: Date): (es: seq<CalendarEvent>)
    ensures ShownOn(es, state.chores, VisibleRange(view, date))
  {
    var r := VisibleRange(view, date);
    var active := ActiveChores(state.chores);
    AllEventsOfChores(active, state.choreInstances, TeamContext.ActiveMembers(members), r.rangeStart, r.rangeEnd);
    AllEvents(active, state.choreInstances, TeamContext.ActiveMembers(members), r.rangeStart, r.rangeEnd)
  }

  /** Every event belongs to a chore of `chores` that is not deleted, and
      starts in the range. */
  predicate ShownOn(es: seq<CalendarEvent>, chores: seq<Chore>, r: Range) {
    forall i :: 0 <= i < |es| ==>
      && es[i].resource.chore in chores && !Truthy(es[i].resource.chore.deletedAt)
      && !Before(es[i].start, r.rangeStart) && !After(es[i].start, r.rangeEnd)
  }

  /** Every event belongs to one of `chores` and starts in the range. */
  predicate OfChoresIn(es: seq<CalendarEvent>, chores: seq<Chore>, rangeStart: Date, rangeEnd: Date) {
    forall i :: 0 <= i < |es| ==>
      es[i].resource.chore in chores && !Before(es[i].start, rangeStart) && !After(es[i].start, rangeEnd)
  }

  /** `instance?.isCompleted ?? chore.isCompleted`: an override decides, and
      the chore's own flag stands in when there is none. */
  predicate EffectiveCompleted(r: EventResource): (b: bool)
    ensures r.instance.Some? ==> (b <==> r.instance.value.isCompleted)
    ensures r.instance.None? ==> (b <==> r.chore.isCompleted)
  {
    if r.instance.Some? then r.instance.value.isCompleted else r.chore.isCompleted
  }

  /** Whether one occurrence of a chore counts as completed, read from the
      records directly. */
  predicate OccurrenceCompleted(records: seq<ChoreInstance>, chore: Chore, d: Date) {
    match FindInstance(records, chore.id, FormatDateISO(d))
    case Some(r) => r.isCompleted
    case None => chore.isCompleted
  }

  const UnassignedColor := "#6B7280"

  /** The event background: the assignee's color, grey without one. */
  function EventColor(r: EventResource): (c: string)
    ensures r.assignee.Some? ==> c == r.assignee.value.color
    ensures r.assignee.None? ==> c == UnassignedColor
  {
    if r.assignee.Some? then r.assignee.value.color else UnassignedColor
  }

  /** handleToggleComplete: toggle the override of the event's occurrence,
      keyed by the chore's id and the event's day as yyyy-MM-dd, with no
      completedBy; that key reads back as the event's day. */
  function HandleToggleComplete(e: CalendarEvent): (a: ChoreAction)
    ensures a.ToggleInstance? && a.choreId == e.resource.chore.id && a.completedBy.None?
    ensures a.instanceDate == FormatDateISO(e.start)
    ensures 1 <= e.start.year <= 9999 ==> ParseDateString(a.instanceDate) == Some(e.start)
  {
    ToggleInstanceFor(e.resource.chore.id, e.start, None)
  }

  /** handleUpdateChore: the selected event's chore with the form's five
      fields laid over it. */
  function HandleUpdateChore(existing: Chore, data: ChoreFormData): (c: Chore)
    ensures c.id == existing.id && c.createdAt == existing.createdAt
    ensures c.updatedAt == existing.updatedAt && c.deletedAt == existing.deletedAt
    ensures c.title == data.title && c.assigneeId == data.assigneeId && c.date == data.date
    ensures c.isCompleted == data.isCompleted && c.recurrence == data.recurrence
  {
    existing.(title := data.title, assigneeId := data.assigneeId, date := data.date,
              isCompleted := data.isCompleted, recurrence := data.recurrence)
  }

  /** handleAddChore: ADD_CHORE of an active draft carrying the form's data. */
  function HandleAddChore(data: ChoreFormData): (a: ChoreAction)
    ensures a.AddChore? && !Truthy(a.draft.deletedAt)
    ensures a.draft.title == data.title && a.draft.assigneeId == data.assigneeId && a.draft.date == data.date
    ensures a.draft.isCompleted == data.isCompleted && a.draft.recurrence == data.recurrence
  {
    AddChore(ToDraft(data))
  }

  /** handleDeleteChore: DELETE_CHORE of the event's chore. */
  function HandleDeleteChore(e: CalendarEvent): (a: ChoreAction)
    ensures a.DeleteChore? && a.id == e.resource.chore.id
  {
    DeleteChore(e.resource.chore.id)
  }

  // ----- The visible range -----

  /** The month view reaches a week before the first and a week after the
      last of the month, so it holds every day of the month. */
  lemma MonthRange(date: Date, d: Date)
    ensures var r := VisibleRange(Month, date);
      && DayNumber(r.rangeStart) == DayNumber(StartOfMonth(date)) - 7
      && DayNumber(r.rangeEnd) == DayNumber(EndOfMonth(date)) + 7
      && (d.year == date.year && d.month == date.month ==>
            DayNumber(r.rangeStart) + 7 <= DayNumber(d) <= DayNumber(r.rangeEnd) - 7)
  {
    if d.year == date.year && d.month == date.month {
      assert DayNumber(d) == DayNumber(StartOfMonth(date)) + d.day - 1;
    }
  }

  /** The week view runs from the Saturday before the week to the Monday
      after it. */
  lemma WeekRange(date: Date)
    ensures var r := VisibleRange(Week, date);
      && Weekday(r.rangeStart) == 6
      && DayNumber(r.rangeStart) == DayNumber(StartOfWeek(date)) - 1
      && DayNumber(r.rangeEnd) == DayNumber(r.rangeStart) + 9
  {
    var sow := StartOfWeek(date);
    assert VisibleRange(Week, date) == WeekWindow(date, 1);
    DayBefore(sow);
  }

  /** The day before a Sunday is a Saturday. */
  lemma DayBefore(sunday: Date)
    requires Weekday(sunday) == 0
    ensures Weekday(AddDays(sunday, -1)) == 6
  {
    WeekdayAddDays(sunday, -1);
  }

  /** So it holds a day on each side of every day of the week. */
  lemma WeekRangeCoversWeek(date: Date, d: Date)
    requires StartOfWeek(d) == StartOfWeek(date)
    ensures var r := VisibleRange(Week, date);
      DayNumber(r.rangeStart) < DayNumber(d) < DayNumber(r.rangeEnd)
  {
    WeekRange(date);
  }

  /** The day view, and every other view, covers the day and the next. */
  lemma DayRange(view: View, date: Date)
    requires view != Month && view != Week
    ensures var r := VisibleRange(view, date);
      r.rangeStart == date && DayNumber(r.rangeEnd) == DayNumber(date) + 1
  {
  }

  // ----- The events on screen -----

  /** An event of a chore carries that chore and lies in the range. */
  lemma EventOfChore(c: Chore, rangeStart: Date, rangeEnd: Date, records: seq<ChoreInstance>, members: seq<TeamMember>, e: CalendarEvent)
    requires e in ChoreEvents(c, rangeStart, rangeEnd, records, members)
    ensures e.resource.chore == c && !Before(e.start, rangeStart) && !After(e.start, rangeEnd)
    ensures e.resource.assignee == FindAssignee(members, c.assigneeId)
    ensures e.resource.instance == FindInstance(records, c.id, FormatDateISO(e.start))
    ensures e.resource.instanceDate == FormatDateISO(e.start) && e.id == GetInstanceKey(c.id, e.start)
  {
    var es := ChoreEvents(c, rangeStart, rangeEnd, records, members);
    var i :| 0 <= i < |es| && es[i] == e;
    ChoreEventFields(c, rangeStart, rangeEnd, records, members, i);
  }

  /** Every event among all events belongs to one of the chores and starts in
      the range. */
  lemma AllEventsOfChores(chores: seq<Chore>, records: seq<ChoreInstance>, members: seq<TeamMember>, rangeStart: Date, rangeEnd: Date)
    ensures OfChoresIn(AllEvents(chores, records, members, rangeStart, rangeEnd), chores, rangeStart, rangeEnd)
  {
    var es := AllEvents(chores, records, members, rangeStart, rangeEnd);
    forall i | 0 <= i < |es|
      ensures es[i].resource.chore in chores && !Before(es[i].start, rangeStart) && !After(es[i].start, rangeEnd)
    {
      InAllEvents(chores, records, members, rangeStart, rangeEnd, es[i]);
      EventOfChore(es[i].resource.chore, rangeStart, rangeEnd, records, members, es[i]);
    }
  }

  /** An event is among all events exactly when its own chore is one of the
      chores and the event is one of that chore's. */
  lemma InAllEvents(chores: seq<Chore>, records: seq<ChoreInstance>, members: seq<TeamMember>, rangeStart: Date, rangeEnd: Date, e: CalendarEvent)
    ensures e in AllEvents(chores, records, members, rangeStart, rangeEnd)
        <==> e.resource.chore in chores && e in ChoreEvents(e.resource.chore, rangeStart, rangeEnd, records, members)
  {
    AllEventsMembership(chores, records, members, rangeStart, rangeEnd, e);
    if e in AllEvents(chores, records, members, rangeStart, rangeEnd) {
      var i :| 0 <= i < |chores| && e in ChoreEvents(chores[i], rangeStart, rangeEnd, records, members);
      EventOfChore(chores[i], rangeStart, rangeEnd, records, members, e);
    }
    if e.resource.chore in chores && e in ChoreEvents(e.resource.chore, rangeStart, rangeEnd, records, members) {
      var i :| 0 <= i < |chores| && chores[i] == e.resource.chore;
    }
  }

  /** Every event on screen belongs to a chore that is not deleted, lies in
      the visible range, and shows the chore's assignee only while that
      member is active. */
  lemma ShownEventsAreActive(state: ChoreState, members: seq<TeamMember>, view: View, date: Date, e: CalendarEvent)
    requires e in CalendarEvents(state, members, view, date)
    ensures var r := VisibleRange(view, date);
      && e.resource.chore in state.chores && !Truthy(e.resource.chore.deletedAt)
      && !Before(e.start, r.rangeStart) && !After(e.start, r.rangeEnd)
      && e.resource.assignee == FindAssignee(TeamContext.ActiveMembers(members), e.resource.chore.assigneeId)
  {
    var r := VisibleRange(view, date);
    var active := ActiveChores(state.chores);
    InAllEvents(active, state.choreInstances, TeamContext.ActiveMembers(members), r.rangeStart, r.rangeEnd, e);
    EventOfChore(e.resource.chore, r.rangeStart, r.rangeEnd, state.choreInstances, TeamContext.ActiveMembers(members), e);
  }

  /** An event renders as completed exactly when its occurrence counts as
      completed: by its override record, or by the chore without one. */
  lemma EventCompletion(c: Chore, rangeStart: Date, rangeEnd: Date, records: seq<ChoreInstance>, members: seq<TeamMember>, e: CalendarEvent)
    requires e in ChoreEvents(c, rangeStart, rangeEnd, records, members)
    ensures EffectiveCompleted(e.resource) <==> OccurrenceCompleted(records, c, e.start)
  {
    EventOfChore(c, rangeStart, rangeEnd, records, members, e);
  }

  /** A chore whose assignee is deleted renders grey. */
  lemma DeletedAssigneeIsGrey(chore: Chore, members: seq<TeamMember>, rangeStart: Date, rangeEnd: Date,
                              records: seq<ChoreInstance>, e: CalendarEvent)
    requires chore.assigneeId.Some?
    requires forall m :: m in members && m.id == chore.assigneeId.value ==> Truthy(m.deletedAt)
    requires e in ChoreEvents(chore, rangeStart, rangeEnd, records, TeamContext.ActiveMembers(members))
    ensures EventColor(e.resource) == UnassignedColor
  {
    var es := ChoreEvents(chore, rangeStart, rangeEnd, records, TeamContext.ActiveMembers(members));
    var i :| 0 <= i < |es| && es[i] == e;
    TeamContext.DeletedAssigneeRendersUnassigned(chore, members, rangeStart, rangeEnd, records, i);
  }

  // ----- The handlers -----

  /** The toggle targets the event's own override: its key is the event's
      instance date, and chore id and key make up the event id. */
  lemma ToggleTargetsEvent(c: Chore, rangeStart: Date, rangeEnd: Date, records: seq<ChoreInstance>, members: seq<TeamMember>, e: CalendarEvent)
    requires e in ChoreEvents(c, rangeStart, rangeEnd, records, members)
    ensures var a := HandleToggleComplete(e);
      && a.ToggleInstance? && a.choreId == c.id && a.instanceDate == e.resource.instanceDate
      && e.id == a.choreId + "_" + a.instanceDate && a.completedBy.None?
  {
    EventOfChore(c, rangeStart, rangeEnd, records, members, e);
  }

  /** After the toggle the occurrence counts as completed exactly when its
      overrides did not say completed before. */
  lemma ToggleCompleteEffect(state: ChoreState, e: CalendarEvent, now: string)
    ensures var s := Reduce(state, HandleToggleComplete(e), "", now);
      var before := OverrideCompleted(state.choreInstances, e.resource.chore.id, FormatDateISO(e.start));
      OccurrenceCompleted(s.choreInstances, e.resource.chore, e.start) <==> !before
  {
    var c := e.resource.chore;
    ToggleNegatesStatus(state.choreInstances, c.id, FormatDateISO(e.start), None, now);
  }

  /** So the toggle flips what the event shows unless the chore itself is
      completed and the occurrence has no override yet: then the record it
      adds says completed, as the chore did. */
  lemma ToggleFlipsDisplayUnlessChoreCompleted(state: ChoreState, e: CalendarEvent, now: string)
    ensures var s := Reduce(state, HandleToggleComplete(e), "", now);
      var c := e.resource.chore;
      (OccurrenceCompleted(s.choreInstances, c, e.start) != OccurrenceCompleted(state.choreInstances, c, e.start))
        <==> FindInstance(state.choreInstances, c.id, FormatDateISO(e.start)).Some? || !c.isCompleted
  {
    ToggleCompleteEffect(state, e, now);
  }

  /** The update replaces the five form fields of every chore with the
      selected chore's id and stamps updatedAt; id, createdAt and deletedAt
      are kept, and every other chore is unchanged. */
  lemma UpdateFromForm(state: ChoreState, existing: Chore, data: ChoreFormData, now: string)
    ensures var s := Reduce(state, UpdateChore(HandleUpdateChore(existing, data)), "", now);
      && |s.chores| == |state.chores| && s.choreInstances == state.choreInstances
      && (forall i :: 0 <= i < |s.chores| && state.chores[i].id == existing.id ==>
            s.chores[i] == Chore(existing.id, data.title, data.assigneeId, data.date, data.isCompleted,
                                 data.recurrence, existing.createdAt, now, existing.deletedAt))
      && (forall i :: 0 <= i < |s.chores| && state.chores[i].id != existing.id ==> s.chores[i] == state.chores[i])
  {
    UpdateChoreEffect(state, HandleUpdateChore(existing, data), now);
  }

  /** Opening a chore and saving it unchanged leaves the chore as it was,
      when its title is trimmed and its assignee is not the empty id. */
  lemma SaveUnchangedKeepsChore(c: Chore, initialDate: Option<Date>, today: Date)
    requires Trim(c.title) == c.title && c.title != "" && c.assigneeId != Some("")
    ensures var d := HandleSubmit(Some(c), InitialFields(Some(c), initialDate, today));
      d.Some? && HandleUpdateChore(c, d.value) == c
  {
    EditUnchangedRoundTrip(c, initialDate, today);
  }

  /** Adding from the form appends one active chore carrying the form's
      fields, the fresh id and now as both timestamps. */
  lemma AddShowsNewChore(state: ChoreState, data: ChoreFormData, freshId: string, now: string)
    ensures var s := Reduce(state, HandleAddChore(data), freshId, now);
      ActiveChores(s.chores) == ActiveChores(state.chores)
        + [Chore(freshId, data.title, data.assigneeId, data.date, data.isCompleted, data.recurrence, now, now, None)]
  {
    var c := NewChore(ToDraft(data), freshId, now);
    ActiveChoresAppend(state.chores, [c]);
    ActiveChoresSingle(c);
  }

  /** A one-off chore added on a day in the visible range shows as exactly
      one more event, on that day, after the events already on screen. */
  lemma AddOneOffShowsOnDay(state: ChoreState, members: seq<TeamMember>, view: View, date: Date,
                            data: ChoreFormData, day: Date, freshId: string, now: string)
    requires data.date == FormatDateISO(day) && 1 <= day.year <= 9999
    requires data.recurrence.pattern == NoRepeat
    requires var r := VisibleRange(view, date); !Before(day, r.rangeStart) && !After(day, r.rangeEnd)
    ensures var s := Reduce(state, HandleAddChore(data), freshId, now);
      var c := NewChore(ToDraft(data), freshId, now);
      CalendarEvents(s, members, view, date) == CalendarEvents(state, members, view, date)
        + [OccurrenceEvent(c, day, state.choreInstances, FindAssignee(TeamContext.ActiveMembers(members), data.assigneeId))]
  {
    var r := VisibleRange(view, date);
    var s := Reduce(state, HandleAddChore(data), freshId, now);
    var c := NewChore(ToDraft(data), freshId, now);
    var active := TeamContext.ActiveMembers(members);
    var e := OccurrenceEvent(c, day, state.choreInstances, FindAssignee(active, data.assigneeId));
    AddShowsNewChore(state, data, freshId, now);
    assert s.choreInstances == state.choreInstances;
    assert ChoreEvents(c, r.rangeStart, r.rangeEnd, state.choreInstances, active) == [e] by {
      ParseFormatRoundTrip(day);
      NoRepeatEvents(c, day, r.rangeStart, r.rangeEnd, state.choreInstances, active);
    }
    AllEventsSingle(c, state.choreInstances, active, r.rangeStart, r.rangeEnd);
    AllEventsAppend(ActiveChores(state.chores), [c], state.choreInstances, active, r.rangeStart, r.rangeEnd);
  }

  /** After the delete no event of the chore is on screen, and every other
      event on screen stays: the screen loses exactly that chore's events. */
  lemma DeleteRemovesChoreEvents(state: ChoreState, members: seq<TeamMember>, view: View, date: Date,
                                 e: CalendarEvent, now: string, x: CalendarEvent)
    requires now != ""
    ensures var s := Reduce(state, HandleDeleteChore(e), "", now);
      var shown := x in CalendarEvents(state, members, view, date) && x.resource.chore.id != e.resource.chore.id;
      x in CalendarEvents(s, members, view, date) <==> shown
  {
    var id := e.resource.chore.id;
    var s := Reduce(state, HandleDeleteChore(e), "", now);
    var r := VisibleRange(view, date);
    var active := TeamContext.ActiveMembers(members);
    InAllEvents(ActiveChores(s.chores), s.choreInstances, active, r.rangeStart, r.rangeEnd, x);
    InAllEvents(ActiveChores(state.chores), state.choreInstances, active, r.rangeStart, r.rangeEnd, x);
    DeleteHidesChore(state, id, now, x.resource.chore);
  }
}
