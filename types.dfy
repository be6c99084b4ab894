/** The records the application stores and derives: chores with their
    recurrence rule, per-occurrence override records, team members and the
    calendar events built from them. */
module Types {
  import opened Common
  import opened CalendarDate

  /** 'none' | 'daily' | 'weekly' | 'monthly' */
  datatype Pattern = NoRepeat | Daily | Weekly | Monthly

  datatype RecurrenceRule = RecurrenceRule(
    pattern: Pattern,
    interval: int,
    endDate: Option<string>,
    daysOfWeek: Option<seq<int>>,
    dayOfMonth: Option<int>)

  datatype Chore = Chore(
    id: string,
    title: string,
    assigneeId: Option<string>,   // null when unassigned
    date: string,                 // anchor date, yyyy-MM-dd
    isCompleted: bool,
    recurrence: RecurrenceRule,
    createdAt: string,
    updatedAt: string,
    deletedAt: Option<string>)

  /** The fields of a chore without id, createdAt and updatedAt. */
  datatype ChoreDraft = ChoreDraft(
    title: string,
    assigneeId: Option<string>,
    date: string,
    isCompleted: bool,
    recurrence: RecurrenceRule,
    deletedAt: Option<string>)

  /** Override record of one occurrence, keyed by (choreId, instanceDate). */
  datatype ChoreInstance = ChoreInstance(
    choreId: string,
    instanceDate: string,
    isCompleted: bool,
    completedAt: Option<string>,
    completedBy: Option<string>)

  datatype TeamMember = TeamMember(
    id: string,
    name: string,
    color: string,
    createdAt: string,
    deletedAt: Option<string>)

  datatype EventResource = EventResource(
    chore: Chore,
    instance: Option<ChoreInstance>,
    assignee: Option<TeamMember>,
    instanceDate: string)

  datatype CalendarEvent = CalendarEvent(
    id: string,
    title: string,
    start: Date,
    end: Date,
    resource: EventResource)

  /** True of a string JavaScript treats as truthy. */
  predicate Truthy(s: Option<string>) {
    s.Some? && s.value != ""
  }

  predicate IsKey(r: ChoreInstance, choreId: string, instanceDate: string) {
    r.choreId == choreId && r.instanceDate == instanceDate
  }

  /** `find` over override records by (choreId, instanceDate): the first
      record with that key, or None. */
  function FindInstance(records: seq<ChoreInstance>, choreId: string, instanceDate: string): (r: Option<ChoreInstance>)
    ensures r.Some? ==> r.value in records && IsKey(r.value, choreId, instanceDate)
    ensures (exists i :: 0 <= i < |records| && IsKey(records[i], choreId, instanceDate)) ==> r.Some?
  {
    if records == [] then None
    else if IsKey(records[0], choreId, instanceDate) then Some(records[0])
    else FindInstance(records[1..], choreId, instanceDate)
  }

  /** `find` over team members by id: the first member with that id. */
  function FindMemberById(members: seq<TeamMember>, id: string): (r: Option<TeamMember>)
    ensures r.Some? ==> r.value in members && r.value.id == id
    ensures (exists i :: 0 <= i < |members| && members[i].id == id) ==> r.Some?
  {
    if members == [] then None
    else if members[0].id == id then Some(members[0])
    else FindMemberById(members[1..], id)
  }

  /** FindInstance finds nothing exactly when no record has the key, and
      otherwise the record at the first index with the key. */
  lemma {:induction false} FindInstanceIsFirstMatch(records: seq<ChoreInstance>, choreId: string, instanceDate: string)
    ensures var r := FindInstance(records, choreId, instanceDate);
      && (r.None? <==> forall i :: 0 <= i < |records| ==> !IsKey(records[i], choreId, instanceDate))
      && (r.Some? ==> exists i :: 0 <= i < |records| && records[i] == r.value
                         && IsKey(records[i], choreId, instanceDate)
                         && forall j :: 0 <= j < i ==> !IsKey(records[j], choreId, instanceDate))
  {
    if records != [] && !IsKey(records[0], choreId, instanceDate) {
      FindInstanceIsFirstMatch(records[1..], choreId, instanceDate);
      var r := FindInstance(records, choreId, instanceDate);
      if r.Some? {
        var i :| 0 <= i < |records[1..]| && records[1..][i] == r.value
                 && IsKey(records[1..][i], choreId, instanceDate)
                 && forall j :: 0 <= j < i ==> !IsKey(records[1..][j], choreId, instanceDate);
        assert records[i + 1] == records[1..][i];
        forall j | 0 <= j < i + 1
          ensures !IsKey(records[j], choreId, instanceDate)
        {
          if j > 0 { assert records[j] == records[1..][j - 1]; }
        }
      } else {
        forall i | 0 <= i < |records|
          ensures !IsKey(records[i], choreId, instanceDate)
        {
          if i > 0 { assert records[i] == records[1..][i - 1]; }
        }
      }
    }
  }

  /** FindMemberById finds nothing exactly when no member has the id, and
      otherwise the member at the first index with the id. */
  lemma {:induction false} FindMemberIsFirstMatch(members: seq<TeamMember>, id: string)
    ensures var r := FindMemberById(members, id);
      && (r.None? <==> forall i :: 0 <= i < |members| ==> members[i].id != id)
      && (r.Some? ==> exists i :: 0 <= i < |members| && members[i] == r.value && r.value.id == id
                         && forall j :: 0 <= j < i ==> members[j].id != id)
  {
    if members != [] && members[0].id != id {
      FindMemberIsFirstMatch(members[1..], id);
      var r := FindMemberById(members, id);
      if r.Some? {
        var i :| 0 <= i < |members[1..]| && members[1..][i] == r.value && r.value.id == id
                 && forall j :: 0 <= j < i ==> members[1..][j].id != id;
        assert members[i + 1] == members[1..][i];
        forall j | 0 <= j < i + 1
          ensures members[j].id != id
        {
          if j > 0 { assert members[j] == members[1..][j - 1]; }
        }
      } else {
        forall i | 0 <= i < |members|
          ensures members[i].id != id
        {
          if i > 0 { assert members[i] == members[1..][i - 1]; }
        }
      }
    }
  }
}
