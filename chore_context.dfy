/** The chore store: the reducer behind the chore context, its lookups and
    the active-chore filter. The store never mutates a state; every action
    yields a new one. Fresh ids and the current time are parameters. */
module ChoreContext {
  import opened Common
  import opened CalendarDate
  import opened DateFormat
  import opened Types

  datatype ChoreState = ChoreState(chores: seq<Chore>, choreInstances: seq<ChoreInstance>)

  datatype ChoreAction =
    | AddChore(draft: ChoreDraft)
    | UpdateChore(chore: Chore)
    | DeleteChore(id: string)
    | ToggleInstance(choreId: string, instanceDate: string, completedBy: Option<string>)
    | LoadState(chores: seq<Chore>, instances: seq<ChoreInstance>)
    | OtherAction   // an action of any other type

  /** The chore ADD_CHORE appends: the payload with a fresh id and both
      timestamps set to now. */
  function NewChore(draft: ChoreDraft, id: string, now: string): Chore {
    Chore(id, draft.title, draft.assigneeId, draft.date, draft.isCompleted, draft.recurrence, now, now, draft.deletedAt)
  }

  /** UPDATE_CHORE: every chore with the payload's id is replaced by the
      payload, stamped with updatedAt = now. */
  function UpdateChores(chores: seq<Chore>, payload: Chore, now: string): seq<Chore> {
    seq(|chores|, i requires 0 <= i < |chores| =>
      if chores[i].id == payload.id then payload.(updatedAt := now) else chores[i])
  }

  /** DELETE_CHORE: a soft delete that stamps deletedAt on every chore with
      the id. */
  function SoftDeleteChores(chores: seq<Chore>, id: string, now: string): seq<Chore> {
    seq(|chores|, i requires 0 <= i < |chores| =>
      if chores[i].id == id then chores[i].(deletedAt := Some(now)) else chores[i])
  }

  /** One override record flipped: it records who completed it and when on
      becoming complete, and forgets both on becoming incomplete. */
  function Flipped(r: ChoreInstance, completedBy: Option<string>, now: string): ChoreInstance {
    if r.isCompleted then r.(isCompleted := false, completedAt := None, completedBy := None)
    else r.(isCompleted := true, completedAt := Some(now), completedBy := completedBy)
  }

  /** TOGGLE_INSTANCE: flip every record with the key when one exists,
      otherwise append a completed record for it. Every record keeps its key
      and those with other keys are untouched. */
  function ToggleRecords(records: seq<ChoreInstance>, choreId: string, instanceDate: string,
                         completedBy: Option<string>, now: string): (rs: seq<ChoreInstance>)
    ensures |rs| == |records| || |rs| == |records| + 1
    ensures forall i :: 0 <= i < |records| ==> IsKey(rs[i], records[i].choreId, records[i].instanceDate)
    ensures forall i :: 0 <= i < |records| && !IsKey(records[i], choreId, instanceDate) ==> rs[i] == records[i]
    ensures |rs| == |records| + 1 ==> rs[|records|] == ChoreInstance(choreId, instanceDate, true, Some(now), completedBy)
  {
    if FindInstance(records, choreId, instanceDate).Some? then
      seq(|records|, i requires 0 <= i < |records| =>
        if IsKey(records[i], choreId, instanceDate) then Flipped(records[i], completedBy, now) else records[i])
    else
      records + [ChoreInstance(choreId, instanceDate, true, Some(now), completedBy)]
  }

  /** choreReducer. Which part of the state each action may change: chore
      actions leave the overrides alone and ADD_CHORE keeps the chores before
      the one it appends, UPDATE_CHORE and DELETE_CHORE keep the number of
      chores, toggles leave the chores alone, LOAD_STATE replaces both lists
      and any other action is the identity. */
  function Reduce(state: ChoreState, action: ChoreAction, freshId: string, now: string): (s: ChoreState)
    ensures action.AddChore? || action.UpdateChore? || action.DeleteChore? ==> s.choreInstances == state.choreInstances
    ensures action.AddChore? ==> |s.chores| == |state.chores| + 1 && s.chores[..|state.chores|] == state.chores
    ensures action.UpdateChore? || action.DeleteChore? ==> |s.chores| == |state.chores|
    ensures action.ToggleInstance? ==> s.chores == state.chores
    ensures action.LoadState? ==> s.chores == action.chores && s.choreInstances == action.instances
    ensures action.OtherAction? ==> s == state
  {
    match action
    case AddChore(draft) =>
      assert (state.chores + [NewChore(draft, freshId, now)])[..|state.chores|] == state.chores;
      state.(chores := state.chores + [NewChore(draft, freshId, now)])
    case UpdateChore(payload) => state.(chores := UpdateChores(state.chores, payload, now))
    case DeleteChore(id) => state.(chores := SoftDeleteChores(state.chores, id, now))
    case ToggleInstance(choreId, instanceDate, completedBy) =>
      state.(choreInstances := ToggleRecords(state.choreInstances, choreId, instanceDate, completedBy, now))
    case LoadState(chores, instances) => ChoreState(chores, instances)
    case OtherAction => state
  }

  /** toggleInstance: the action for one occurrence, keyed by the
      `yyyy-MM-dd` form of its date, which reads back as that date for
      four-digit years. */
  function ToggleInstanceFor(choreId: string, date: Date, completedBy: Option<string>): (a: ChoreAction)
    ensures a.ToggleInstance? && a.choreId == choreId && a.completedBy == completedBy
    ensures a.instanceDate == FormatDateISO(date)
    ensures 1 <= date.year <= 9999 ==> ParseDateString(a.instanceDate) == Some(date)
  {
    if 1 <= date.year <= 9999 then
      ParseFormatRoundTrip(date);
      ToggleInstance(choreId, FormatDateISO(date), completedBy)
    else ToggleInstance(choreId, FormatDateISO(date), completedBy)
  }

  /** getInstanceStatus: the first record with the key, over all records;
      one is found whenever a record has the key. */
  function GetInstanceStatus(state: ChoreState, choreId: string, instanceDate: string): (r: Option<ChoreInstance>)
    ensures r.Some? ==> r.value in state.choreInstances && IsKey(r.value, choreId, instanceDate)
    ensures (exists i :: 0 <= i < |state.choreInstances| && IsKey(state.choreInstances[i], choreId, instanceDate)) ==> r.Some?
  {
    FindInstance(state.choreInstances, choreId, instanceDate)
  }

  /** getChoreById: the first chore with the id, soft-deleted ones included;
      one is found whenever a chore has the id. */
  function GetChoreById(chores: seq<Chore>, id: string): (r: Option<Chore>)
    ensures r.Some? ==> r.value in chores && r.value.id == id
    ensures (exists i :: 0 <= i < |chores| && chores[i].id == id) ==> r.Some?
  {
    if chores == [] then None
    else if chores[0].id == id then Some(chores[0])
    else GetChoreById(chores[1..], id)
  }

  /** The chores the context exposes: exactly those without a (truthy)
      deletedAt, in their original order. */
  function ActiveChores(chores: seq<Chore>): (r: seq<Chore>)
    ensures |r| <= |chores|
    ensures forall c :: c in r <==> c in chores && !Truthy(c.deletedAt)
  {
    if chores == [] then []
    else
      assert chores == [chores[0]] + chores[1..];
      (if Truthy(chores[0].deletedAt) then [] else [chores[0]]) + ActiveChores(chores[1..])
  }

  /** No two override records share a (choreId, instanceDate) key. */
  predicate UniqueKeys(records: seq<ChoreInstance>) {
    forall i, j :: 0 <= i < j < |records| ==> !IsKey(records[j], records[i].choreId, records[i].instanceDate)
  }

  /** Whether the key's occurrence counts as completed by its overrides: the
      first record's flag, and false when there is none. */
  predicate OverrideCompleted(records: seq<ChoreInstance>, choreId: string, instanceDate: string) {
    var r := FindInstance(records, choreId, instanceDate);
    r.Some? && r.value.isCompleted
  }

  // ----- Lemmas -----

  /** ADD_CHORE appends exactly one chore, built from the payload with the
      fresh id and createdAt = updatedAt = now; nothing else changes. */
  lemma AddChoreAppends(state: ChoreState, draft: ChoreDraft, freshId: string, now: string)
    ensures var s := Reduce(state, AddChore(draft), freshId, now);
      && |s.chores| == |state.chores| + 1
      && s.chores[..|state.chores|] == state.chores
      && s.choreInstances == state.choreInstances
      && var c := s.chores[|state.chores|];
         && c.id == freshId && c.createdAt == now && c.updatedAt == now
         && c.title == draft.title && c.assigneeId == draft.assigneeId && c.date == draft.date
         && c.isCompleted == draft.isCompleted && c.recurrence == draft.recurrence
         && c.deletedAt == draft.deletedAt
  {
    var s := Reduce(state, AddChore(draft), freshId, now);
    assert s.chores[..|state.chores|] == state.chores;
  }

  /** UPDATE_CHORE keeps the length; a chore with the payload's id becomes
      the payload stamped with now, every other chore is unchanged, and when
      no chore has the id the list is unchanged. */
  lemma UpdateChoreEffect(state: ChoreState, payload: Chore, now: string)
    ensures var s := Reduce(state, UpdateChore(payload), "", now);
      && |s.chores| == |state.chores|
      && s.choreInstances == state.choreInstances
      && (forall i :: 0 <= i < |s.chores| && state.chores[i].id == payload.id ==>
            s.chores[i] == payload.(updatedAt := now) && s.chores[i].updatedAt == now)
      && (forall i :: 0 <= i < |s.chores| && state.chores[i].id != payload.id ==> s.chores[i] == state.chores[i])
      && ((forall i :: 0 <= i < |state.chores| ==> state.chores[i].id != payload.id) ==> s.chores == state.chores)
  {
  }

  /** DELETE_CHORE keeps the length and every field of every chore, except
      that chores with the id gain deletedAt = now. */
  lemma DeleteChoreEffect(state: ChoreState, id: string, now: string)
    ensures var s := Reduce(state, DeleteChore(id), "", now);
      && |s.chores| == |state.chores|
      && s.choreInstances == state.choreInstances
      && (forall i :: 0 <= i < |s.chores| && state.chores[i].id == id ==>
            s.chores[i] == state.chores[i].(deletedAt := Some(now)))
      && (forall i :: 0 <= i < |s.chores| && state.chores[i].id != id ==> s.chores[i] == state.chores[i])
  {
  }

  /** The filter keeps order: filtering two lists one after the other is
      filtering each and concatenating. */
  lemma {:induction false} ActiveChoresAppend(a: seq<Chore>, b: seq<Chore>)
    ensures ActiveChores(a + b) == ActiveChores(a) + ActiveChores(b)
  {
    if a == [] {
      assert a + b == b;
    } else {
      assert (a + b)[0] == a[0];
      assert (a + b)[1..] == a[1..] + b;
      ActiveChoresAppend(a[1..], b);
    }
  }

  /** Filtering a single chore keeps it exactly when it is not deleted. */
  lemma ActiveChoresSingle(c: Chore)
    ensures ActiveChores([c]) == if Truthy(c.deletedAt) then [] else [c]
  {
    assert [c][1..] == [];
  }

  /** After a delete stamped with a non-empty time, the active chores are
      the previously active ones without the id. */
  lemma DeleteHidesChore(state: ChoreState, id: string, now: string, c: Chore)
    requires now != ""
    ensures c in ActiveChores(Reduce(state, DeleteChore(id), "", now).chores)
        <==> c in ActiveChores(state.chores) && c.id != id
  {
    var cs := Reduce(state, DeleteChore(id), "", now).chores;
    if c in cs && !Truthy(c.deletedAt) {
      var i :| 0 <= i < |cs| && cs[i] == c;
      assert state.chores[i].id != id;
    }
    if c in state.chores && !Truthy(c.deletedAt) && c.id != id {
      var i :| 0 <= i < |state.chores| && state.chores[i] == c;
      assert cs[i] == c;
    }
  }

  /** getChoreById finds nothing exactly when no chore has the id, and
      otherwise the chore at the first index with it. */
  lemma {:induction false} GetChoreByIdIsFirstMatch(chores: seq<Chore>, id: string)
    ensures var r := GetChoreById(chores, id);
      && (r.None? <==> forall i :: 0 <= i < |chores| ==> chores[i].id != id)
      && (r.Some? ==> exists i :: 0 <= i < |chores| && chores[i] == r.value && r.value.id == id
                         && forall j :: 0 <= j < i ==> chores[j].id != id)
  {
    if chores != [] && chores[0].id != id {
      GetChoreByIdIsFirstMatch(chores[1..], id);
      var r := GetChoreById(chores, id);
      if r.Some? {
        var i :| 0 <= i < |chores[1..]| && chores[1..][i] == r.value && r.value.id == id
                 && forall j :: 0 <= j < i ==> chores[1..][j].id != id;
        assert chores[i + 1] == chores[1..][i];
        forall j | 0 <= j < i + 1
          ensures chores[j].id != id
        {
          if j > 0 { assert chores[j] == chores[1..][j - 1]; }
        }
      } else {
        forall i | 0 <= i < |chores|
          ensures chores[i].id != id
        {
          if i > 0 { assert chores[i] == chores[1..][i - 1]; }
        }
      }
    }
  }

  /** getChoreById still finds a chore after it is soft-deleted. */
  lemma GetChoreByIdSeesDeleted(state: ChoreState, id: string, now: string)
    requires GetChoreById(state.chores, id).Some?
    ensures var r := GetChoreById(Reduce(state, DeleteChore(id), "", now).chores, id);
      r == Some(GetChoreById(state.chores, id).value.(deletedAt := Some(now)))
  {
    var cs := Reduce(state, DeleteChore(id), "", now).chores;
    GetChoreByIdIsFirstMatch(state.chores, id);
    var i :| 0 <= i < |state.chores| && state.chores[i] == GetChoreById(state.chores, id).value
             && state.chores[i].id == id && forall j :: 0 <= j < i ==> state.chores[j].id != id;
    FirstChoreAt(cs, id, i);
  }

  lemma {:induction false} FirstChoreAt(chores: seq<Chore>, id: string, i: nat)
    requires i < |chores| && chores[i].id == id
    requires forall j :: 0 <= j < i ==> chores[j].id != id
    ensures GetChoreById(chores, id) == Some(chores[i])
  {
    if i > 0 {
      FirstChoreAt(chores[1..], id, i - 1);
    }
  }

  /** The first record with a key, found at index i. */
  lemma {:induction false} FirstInstanceAt(records: seq<ChoreInstance>, choreId: string, instanceDate: string, i: nat)
    requires i < |records| && IsKey(records[i], choreId, instanceDate)
    requires forall j :: 0 <= j < i ==> !IsKey(records[j], choreId, instanceDate)
    ensures FindInstance(records, choreId, instanceDate) == Some(records[i])
  {
    if i > 0 {
      FirstInstanceAt(records[1..], choreId, instanceDate, i - 1);
    }
  }

  /** With no record for a key, TOGGLE_INSTANCE appends one completed
      record for it, with completedAt = now and the given completedBy,
      whatever the chore's own flag; the chores are unchanged. */
  lemma ToggleAbsentAppends(state: ChoreState, choreId: string, instanceDate: string, completedBy: Option<string>, now: string)
    requires FindInstance(state.choreInstances, choreId, instanceDate).None?
    ensures var s := Reduce(state, ToggleInstance(choreId, instanceDate, completedBy), "", now);
      && s.chores == state.chores
      && |s.choreInstances| == |state.choreInstances| + 1
      && s.choreInstances[..|state.choreInstances|] == state.choreInstances
      && var r := s.choreInstances[|state.choreInstances|];
         && IsKey(r, choreId, instanceDate) && r.isCompleted
         && r.completedAt == Some(now) && r.completedBy == completedBy
  {
    var s := Reduce(state, ToggleInstance(choreId, instanceDate, completedBy), "", now);
    assert s.choreInstances[..|state.choreInstances|] == state.choreInstances;
  }

  /** With a record for a key, TOGGLE_INSTANCE keeps the length and flips
      every record with the key, setting completedAt and completedBy when it
      becomes complete and clearing them when it becomes incomplete; other
      records and the chores are unchanged. */
  lemma TogglePresentFlips(state: ChoreState, choreId: string, instanceDate: string, completedBy: Option<string>, now: string)
    requires FindInstance(state.choreInstances, choreId, instanceDate).Some?
    ensures var s := Reduce(state, ToggleInstance(choreId, instanceDate, completedBy), "", now);
      && s.chores == state.chores
      && |s.choreInstances| == |state.choreInstances|
      && (forall i :: 0 <= i < |s.choreInstances| && IsKey(state.choreInstances[i], choreId, instanceDate) ==>
            var (r, r') := (state.choreInstances[i], s.choreInstances[i]);
            && IsKey(r', choreId, instanceDate)
            && r'.isCompleted == !r.isCompleted
            && (r'.isCompleted ==> r'.completedAt == Some(now) && r'.completedBy == completedBy)
            && (!r'.isCompleted ==> r'.completedAt.None? && r'.completedBy.None?))
      && (forall i :: 0 <= i < |s.choreInstances| && !IsKey(state.choreInstances[i], choreId, instanceDate) ==>
            s.choreInstances[i] == state.choreInstances[i])
  {
  }

  /** After TOGGLE_INSTANCE the key has a record, completed exactly when the
      key did not count as completed before (no record counts as not
      completed). */
  lemma ToggleNegatesStatus(records: seq<ChoreInstance>, choreId: string, instanceDate: string, completedBy: Option<string>, now: string)
    ensures var records' := ToggleRecords(records, choreId, instanceDate, completedBy, now);
      && FindInstance(records', choreId, instanceDate).Some?
      && (OverrideCompleted(records', choreId, instanceDate) <==> !OverrideCompleted(records, choreId, instanceDate))
  {
    var records' := ToggleRecords(records, choreId, instanceDate, completedBy, now);
    FindInstanceIsFirstMatch(records, choreId, instanceDate);
    var found := FindInstance(records, choreId, instanceDate);
    if found.Some? {
      var i :| 0 <= i < |records| && records[i] == found.value && IsKey(records[i], choreId, instanceDate)
               && forall j :: 0 <= j < i ==> !IsKey(records[j], choreId, instanceDate);
      assert forall j :: 0 <= j < i ==> records'[j] == records[j];
      FirstInstanceAt(records', choreId, instanceDate, i);
    } else {
      assert records'[..|records|] == records;
      FirstInstanceAt(records', choreId, instanceDate, |records|);
    }
  }

  /** Toggling the same key twice restores whether it counts as completed. */
  lemma ToggleTwiceRestores(state: ChoreState, choreId: string, instanceDate: string,
                            by1: Option<string>, by2: Option<string>, now1: string, now2: string)
    ensures var s1 := Reduce(state, ToggleInstance(choreId, instanceDate, by1), "", now1);
      var s2 := Reduce(s1, ToggleInstance(choreId, instanceDate, by2), "", now2);
      OverrideCompleted(s2.choreInstances, choreId, instanceDate) <==> OverrideCompleted(state.choreInstances, choreId, instanceDate)
  {
    var s1 := Reduce(state, ToggleInstance(choreId, instanceDate, by1), "", now1);
    ToggleNegatesStatus(state.choreInstances, choreId, instanceDate, by1, now1);
    ToggleNegatesStatus(s1.choreInstances, choreId, instanceDate, by2, now2);
  }

  /** toggleInstance keys the override by the `yyyy-MM-dd` form of the date,
      and getInstanceStatus then finds a record whose flag is the negation of
      the previous status. */
  lemma ToggleThenStatus(state: ChoreState, choreId: string, date: Date, completedBy: Option<string>, now: string)
    ensures var s := Reduce(state, ToggleInstanceFor(choreId, date, completedBy), "", now);
      var r := GetInstanceStatus(s, choreId, FormatDateISO(date));
      && r.Some? && r.value.choreId == choreId && r.value.instanceDate == FormatDateISO(date)
      && (r.value.isCompleted <==> !OverrideCompleted(state.choreInstances, choreId, FormatDateISO(date)))
  {
    var s := Reduce(state, ToggleInstanceFor(choreId, date, completedBy), "", now);
    ToggleNegatesStatus(state.choreInstances, choreId, FormatDateISO(date), completedBy, now);
    FindInstanceIsFirstMatch(s.choreInstances, choreId, FormatDateISO(date));
  }

  /** Every action except LOAD_STATE keeps the override keys unique. */
  lemma ReducePreservesUniqueKeys(state: ChoreState, action: ChoreAction, freshId: string, now: string)
    requires !action.LoadState?
    requires UniqueKeys(state.choreInstances)
    ensures UniqueKeys(Reduce(state, action, freshId, now).choreInstances)
  {
    if action.ToggleInstance? {
      var records := state.choreInstances;
      var records' := Reduce(state, action, freshId, now).choreInstances;
      if FindInstance(records, action.choreId, action.instanceDate).Some? {
        assert forall i :: 0 <= i < |records| ==>
          records'[i].choreId == records[i].choreId && records'[i].instanceDate == records[i].instanceDate;
      } else {
        FindInstanceIsFirstMatch(records, action.choreId, action.instanceDate);
        forall i, j | 0 <= i < j < |records'|
          ensures !IsKey(records'[j], records'[i].choreId, records'[i].instanceDate)
        {
          if j == |records| {
            assert !IsKey(records[i], action.choreId, action.instanceDate);
          }
        }
      }
    }
  }

}
