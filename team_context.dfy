/** The team store: the reducer behind the team context, the member lookup
    and the active-member filter. Fresh ids and the current time are
    parameters. */
module TeamContext {
  import opened Common
  import opened CalendarDate
  import opened Types
  import opened Recurrence

  datatype TeamAction =
    | AddMember(name: string, color: string)
    | UpdateMember(id: string, name: string, color: string)
    | DeleteMember(id: string)
    | LoadMembers(members: seq<TeamMember>)
    | OtherAction   // an action of any other type

  /** UPDATE_MEMBER: every member with the id takes the new name and color. */
  function RenameMembers(members: seq<TeamMember>, id: string, name: string, color: string): seq<TeamMember> {
    seq(|members|, i requires 0 <= i < |members| =>
      if members[i].id == id then members[i].(name := name, color := color) else members[i])
  }

  /** DELETE_MEMBER: a soft delete that stamps deletedAt on every member
      with the id. */
  function SoftDeleteMembers(members: seq<TeamMember>, id: string, now: string): seq<TeamMember> {
    seq(|members|, i requires 0 <= i < |members| =>
      if members[i].id == id then members[i].(deletedAt := Some(now)) else members[i])
  }

  /** teamReducer, on the member list of the state. ADD_MEMBER appends one
      member with the fresh id, createdAt = now and no deletedAt and keeps the
      others; UPDATE_MEMBER changes only name and color of the members with
      the id; DELETE_MEMBER only stamps their deletedAt; LOAD_MEMBERS replaces
      the list and any other action keeps it. */
  function Reduce(members: seq<TeamMember>, action: TeamAction, freshId: string, now: string): (ms: seq<TeamMember>)
    ensures action.AddMember? ==>
      && |ms| == |members| + 1 && ms[..|members|] == members
      && ms[|members|] == TeamMember(freshId, action.name, action.color, now, None)
    ensures action.UpdateMember? ==>
      && |ms| == |members|
      && (forall i :: 0 <= i < |ms| && members[i].id == action.id ==>
            && ms[i].name == action.name && ms[i].color == action.color && ms[i].id == action.id
            && ms[i].createdAt == members[i].createdAt && ms[i].deletedAt == members[i].deletedAt)
      && (forall i :: 0 <= i < |ms| && members[i].id != action.id ==> ms[i] == members[i])
    ensures action.DeleteMember? ==>
      && |ms| == |members|
      && (forall i :: 0 <= i < |ms| && members[i].id == action.id ==> ms[i] == members[i].(deletedAt := Some(now)))
      && (forall i :: 0 <= i < |ms| && members[i].id != action.id ==> ms[i] == members[i])
    ensures action.LoadMembers? ==> ms == action.members
    ensures action.OtherAction? ==> ms == members
  {
    match action
    case AddMember(name, color) =>
      assert (members + [TeamMember(freshId, name, color, now, None)])[..|members|] == members;
      members + [TeamMember(freshId, name, color, now, None)]
    case UpdateMember(id, name, color) => RenameMembers(members, id, name, color)
    case DeleteMember(id) => SoftDeleteMembers(members, id, now)
    case LoadMembers(loaded) => loaded
    case OtherAction => members
  }

  /** getMemberById: nothing for a null or empty id, otherwise the first
      member with the id, soft-deleted ones included. */
  function GetMemberById(members: seq<TeamMember>, id: Option<string>): (r: Option<TeamMember>)
    ensures r.Some? ==> Truthy(id) && r.value in members && r.value.id == id.value
    ensures Truthy(id) && (exists i :: 0 <= i < |members| && members[i].id == id.value) ==> r.Some?
  {
    if !Truthy(id) then None else FindMemberById(members, id.value)
  }

  /** The members the context exposes: exactly those without a (truthy)
      deletedAt, in their original order. */
  function ActiveMembers(members: seq<TeamMember>): (r: seq<TeamMember>)
    ensures |r| <= |members|
    ensures forall m :: m in r <==> m in members && !Truthy(m.deletedAt)
  {
    if members == [] then []
    else
      assert members == [members[0]] + members[1..];
      (if Truthy(members[0].deletedAt) then [] else [members[0]]) + ActiveMembers(members[1..])
  }

  // ----- Lemmas -----

  /** getMemberById finds nothing for a null or empty id; otherwise it finds
      the first member with the id, whether or not it is deleted. */
  lemma GetMemberByIdIsFirstMatch(members: seq<TeamMember>, id: Option<string>)
    ensures var r := GetMemberById(members, id);
      && (!Truthy(id) ==> r.None?)
      && (Truthy(id) ==>
            && (r.None? <==> forall i :: 0 <= i < |members| ==> members[i].id != id.value)
            && (r.Some? ==> exists i :: 0 <= i < |members| && members[i] == r.value && r.value.id == id.value
                               && forall j :: 0 <= j < i ==> members[j].id != id.value))
  {
    if Truthy(id) {
      FindMemberIsFirstMatch(members, id.value);
    }
  }

  /** The filter keeps order: it distributes over concatenation. */
  lemma {:induction false} ActiveMembersAppend(a: seq<TeamMember>, b: seq<TeamMember>)
    ensures ActiveMembers(a + b) == ActiveMembers(a) + ActiveMembers(b)
  {
    if a == [] {
      assert a + b == b;
    } else {
      assert (a + b)[0] == a[0];
      assert (a + b)[1..] == a[1..] + b;
      ActiveMembersAppend(a[1..], b);
    }
  }

  /** A chore whose assignee ids match only deleted members renders with no
      assignee: the calendar looks assignees up among the active members. */
  lemma DeletedAssigneeRendersUnassigned(chore: Chore, members: seq<TeamMember>, rangeStart: Date, rangeEnd: Date,
                                         records: seq<ChoreInstance>, i: int)
    requires chore.assigneeId.Some?
    requires forall m :: m in members && m.id == chore.assigneeId.value ==> Truthy(m.deletedAt)
    requires 0 <= i < |ChoreEvents(chore, rangeStart, rangeEnd, records, ActiveMembers(members))|
    ensures ChoreEvents(chore, rangeStart, rangeEnd, records, ActiveMembers(members))[i].resource.assignee.None?
  {
    var active := ActiveMembers(members);
    ChoreEventFields(chore, rangeStart, rangeEnd, records, active, i);
    FindMemberIsFirstMatch(active, chore.assigneeId.value);
    assert forall j :: 0 <= j < |active| ==> active[j] in active;
  }

  /** Deleting a member hides it from the active list and from every
      calendar assignee lookup that uses the active list. */
  lemma DeleteMemberHides(members: seq<TeamMember>, id: string, now: string)
    requires now != ""
    ensures forall m :: m in ActiveMembers(Reduce(members, DeleteMember(id), "", now)) ==> m.id != id
    ensures FindAssignee(ActiveMembers(Reduce(members, DeleteMember(id), "", now)), Some(id)).None?
  {
    var ms := Reduce(members, DeleteMember(id), "", now);
    var active := ActiveMembers(ms);
    assert forall m :: m in ms ==> m.id != id || Truthy(m.deletedAt);
    FindMemberIsFirstMatch(active, id);
  }
}
