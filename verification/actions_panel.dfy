/** The Actions tab's bookkeeping: appending received actions with their
    per-id state record, capping the history, filling in the `after`
    snapshot of the newest waiting action when a state update arrives, and
    clearing. */
module ActionsPanel {
  import opened Wrappers
  import opened Assoc
  import opened Values
  import opened PanelState

  /** A history longer than this is cut back ... */
  const HistoryLimit := 200
  /** ... to its newest this many actions. */
  const HistoryKeep := 100

  /** The actions a cut drops: all but the newest `HistoryKeep`. */
  function Dropped(actions: seq<ActionData>): (r: seq<ActionData>)
    ensures |actions| > HistoryLimit ==> actions == r + actions[|actions| - HistoryKeep..]
    ensures |actions| <= HistoryLimit ==> r == []
  {
    if |actions| > HistoryLimit then actions[..|actions| - HistoryKeep] else []
  }

  /** The history cap: a history over the limit keeps its newest
      `HistoryKeep` actions and forgets the records of the ids it dropped. */
  function Cap(actions: seq<ActionData>, states: seq<Entry<Record>>): (r: (seq<ActionData>, seq<Entry<Record>>))
    ensures |r.0| <= HistoryLimit && |r.0| <= |actions| && r.0 == actions[|actions| - |r.0|..]
    ensures |actions| > HistoryLimit ==> |r.0| == HistoryKeep
    ensures |actions| <= HistoryLimit ==> r == (actions, states)
    ensures forall k :: Lookup(r.1, k) == if k in Ids(Dropped(actions)) then None else Lookup(states, k)
  {
    if |actions| > HistoryLimit then
      (actions[|actions| - HistoryKeep..], DeleteAll(states, Ids(actions[..|actions| - HistoryKeep])))
    else (actions, states)
  }

  /** Sets the same record for every id of `ids`, in order. */
  function SetAll(states: seq<Entry<Record>>, ids: seq<string>, rec: Record): (r: seq<Entry<Record>>)
    ensures forall k :: k in ids ==> Lookup(r, k) == Some(rec)
    ensures forall k :: k !in ids ==> Lookup(r, k) == Lookup(states, k)
    decreases |ids|
  {
    if |ids| == 0 then states else SetAll(Update(states, ids[0], rec), ids[1..], rec)
  }

  /** The one-store object `{[store]: v}`. */
  function Single(store: Option<string>, v: Value): Value
  {
    Obj([Entry(ObjectKey(store), v)])
  }

  /** The record `handleAction` stores for an action. */
  function RecordOf(a: ActionData): Record
  {
    if a.changes.Some? && |a.changes.value| > 0 then Changes(a.changes.value)
    else if Truthy(a.beforeState) && Truthy(a.afterState) then
      Snapshots(Single(a.store, a.beforeState), Some(Single(a.store, a.afterState)))
    else Changes([])
  }

  /** `handleAction`: the action is appended and its record stored, by
      priority: the hook's non-empty change list, else the legacy
      before/after pair when both are present, else an empty change list;
      then the history is capped. */
  function HandleAction(p: Panel, a: ActionData): (r: Panel)
    ensures r == p.(actions := r.actions, actionStates := r.actionStates)
    ensures var all := p.actions + [a];
      && (|all| > HistoryLimit ==> r.actions == all[|all| - HistoryKeep..])
      && (|all| <= HistoryLimit ==> r.actions == all)
    ensures a.id !in Ids(p.actions) ==> Lookup(r.actionStates, a.id) == Some(
      if a.changes.Some? && |a.changes.value| > 0 then Changes(a.changes.value)
      else if Truthy(a.beforeState) && Truthy(a.afterState) then
        Snapshots(Obj([Entry(ObjectKey(a.store), a.beforeState)]), Some(Obj([Entry(ObjectKey(a.store), a.afterState)])))
      else Changes([]))
    ensures forall k :: k != a.id ==>
      Lookup(r.actionStates, k) == (if k in Ids(Dropped(p.actions + [a])) then None else Lookup(p.actionStates, k))
  {
    var all := p.actions + [a];
    var c := Cap(all, Update(p.actionStates, a.id, RecordOf(a)));
    DroppedIds(p.actions, a);
    p.(actions := c.0, actionStates := c.1)
  }

  /** Only ids of earlier actions are ever dropped with a new one. */
  lemma DroppedIds(prior: seq<ActionData>, a: ActionData)
    ensures forall k :: k in Ids(Dropped(prior + [a])) ==> k in Ids(prior)
  {
    var all := prior + [a];
    forall k | k in Ids(Dropped(all)) ensures k in Ids(prior) {
      var i :| 0 <= i < |Dropped(all)| && Ids(Dropped(all))[i] == k;
      assert Dropped(all)[i] == prior[i];
      assert Ids(prior)[i] == k;
    }
  }

  /** `handleActionsBatch`: every action of the batch gets the same
      `before` snapshot (a JSON copy of the current state, taken once) and
      a `null` after; the batch is appended and the history capped. */
  function HandleActionsBatch(p: Panel, batch: seq<ActionData>): (r: Panel)
    ensures r == p.(actions := r.actions, actionStates := r.actionStates)
    ensures var all := p.actions + batch;
      && (|all| > HistoryLimit ==> r.actions == all[|all| - HistoryKeep..])
      && (|all| <= HistoryLimit ==> r.actions == all)
    ensures forall k :: k in Ids(batch) && k !in Ids(Dropped(p.actions + batch)) ==>
      Lookup(r.actionStates, k) == Some(Snapshots(Clone(Obj(p.currentState)), None))
    ensures forall k :: k !in Ids(batch) ==>
      Lookup(r.actionStates, k) == (if k in Ids(Dropped(p.actions + batch)) then None else Lookup(p.actionStates, k))
  {
    var before := Clone(Obj(p.currentState));
    var c := Cap(p.actions + batch, SetAll(p.actionStates, Ids(batch), Snapshots(before, None)));
    p.(actions := c.0, actionStates := c.1)
  }

  /** The action's record still waits for its `after` snapshot. */
  predicate Waiting(states: seq<Entry<Record>>, a: ActionData)
  {
    var rec := Lookup(states, a.id);
    rec.Some? && rec.value.Snapshots? && rec.value.after.None?
  }

  /** The position of the newest waiting action. */
  function LastWaiting(actions: seq<ActionData>, states: seq<Entry<Record>>): (r: Option<nat>)
    ensures r.Some? ==> r.value < |actions| && Waiting(states, actions[r.value])
    ensures r.Some? ==> forall i :: r.value < i < |actions| ==> !Waiting(states, actions[i])
    ensures r.None? ==> forall i :: 0 <= i < |actions| ==> !Waiting(states, actions[i])
    decreases |actions|
  {
    if |actions| == 0 then None
    else if Waiting(states, actions[|actions| - 1]) then Some(|actions| - 1)
    else LastWaiting(actions[..|actions| - 1], states)
  }

  /** The `after` snapshot for an action: `{[store]: copy}`, where the
      copy is of the action's own store when it names one present (and
      truthy) in the new state, and of the whole new state otherwise. */
  function AfterOf(a: ActionData, newState: seq<Entry<Value>>): Value
  {
    var own := if a.store.Some? then Lookup(newState, a.store.value).GetOr(Undef) else Undef;
    if a.store.Some? && a.store.value != "" && Truthy(own) then Single(a.store, Clone(own))
    else Single(a.store, Clone(Obj(newState)))
  }

  /** `updateActionAfterState`: the newest waiting action, and only that
      one, gets its `after` snapshot; without a waiting action nothing
      changes. */
  function UpdateActionAfterState(p: Panel, newState: seq<Entry<Value>>): (r: Panel)
    ensures r == p.(actionStates := r.actionStates)
    ensures (forall i :: 0 <= i < |p.actions| ==> !Waiting(p.actionStates, p.actions[i])) ==> r == p
    ensures LastWaiting(p.actions, p.actionStates).Some? ==>
      var a := p.actions[LastWaiting(p.actions, p.actionStates).value];
      && Lookup(r.actionStates, a.id) == Some(Snapshots(Lookup(p.actionStates, a.id).value.before, Some(AfterOf(a, newState))))
      && forall k :: k != a.id ==> Lookup(r.actionStates, k) == Lookup(p.actionStates, k)
  {
    match LastWaiting(p.actions, p.actionStates)
    case None => p
    case Some(j) =>
      var a := p.actions[j];
      var rec := Lookup(p.actionStates, a.id).value;
      p.(actionStates := Update(p.actionStates, a.id, Snapshots(rec.before, Some(AfterOf(a, newState)))))
  }

  /** The snapshot lands on the newest waiting action: it gets its after,
      and every other record stays. */
  lemma AfterTargetsNewest(p: Panel, newState: seq<Entry<Value>>, j: nat)
    requires j < |p.actions| && Waiting(p.actionStates, p.actions[j])
    requires forall i :: j < i < |p.actions| ==> !Waiting(p.actionStates, p.actions[i])
    ensures var a := p.actions[j]; var r := UpdateActionAfterState(p, newState).actionStates;
      && Lookup(r, a.id) == Some(Snapshots(Lookup(p.actionStates, a.id).value.before, Some(AfterOf(a, newState))))
      && forall k :: k != a.id ==> Lookup(r, k) == Lookup(p.actionStates, k)
  {
    LastWaitingUnique(p.actions, p.actionStates, j);
  }

  lemma LastWaitingUnique(actions: seq<ActionData>, states: seq<Entry<Record>>, j: nat)
    requires j < |actions| && Waiting(states, actions[j])
    requires forall i :: j < i < |actions| ==> !Waiting(states, actions[i])
    ensures LastWaiting(actions, states) == Some(j)
  {
  }

  /** `clearActions`. */
  function ClearActions(p: Panel): (r: Panel)
    ensures r.actions == [] && r.actionStates == [] && r.selectedAction.None?
    ensures r == p.(actions := [], actionStates := [], selectedAction := None)
  {
    p.(actions := [], actionStates := [], selectedAction := None)
  }

  /** The ids of the listed actions still waiting for a snapshot. */
  function WaitingIds(p: Panel): set<string>
  {
    set i | 0 <= i < |p.actions| && Waiting(p.actionStates, p.actions[i]) :: p.actions[i].id
  }

  /** Each state update settles exactly one waiting action id, the newest;
      once none waits, further updates change nothing. */
  lemma UpdateSettlesOne(p: Panel, newState: seq<Entry<Value>>)
    ensures var r := UpdateActionAfterState(p, newState);
      && (WaitingIds(p) == {} ==> r == p)
      && (WaitingIds(p) != {} ==>
            var j := LastWaiting(p.actions, p.actionStates).value;
            WaitingIds(r) == WaitingIds(p) - {p.actions[j].id} && p.actions[j].id in WaitingIds(p))
  {
    match LastWaiting(p.actions, p.actionStates)
    case None =>
      assert WaitingIds(p) == {};
    case Some(j) =>
      var id := p.actions[j].id;
      var rec := Lookup(p.actionStates, id).value;
      var states := Update(p.actionStates, id, Snapshots(rec.before, Some(AfterOf(p.actions[j], newState))));
      assert UpdateActionAfterState(p, newState) == p.(actionStates := states);
      assert id in WaitingIds(p);
      Settle(p, id, states);
  }

  /** Changing the record of one waiting id to a settled one removes just
      that id from the waiting ones. */
  lemma Settle(p: Panel, id: string, states: seq<Entry<Record>>)
    requires Lookup(states, id).Some? && Lookup(states, id).value.Snapshots? && Lookup(states, id).value.after.Some?
    requires forall k :: k != id ==> Lookup(states, k) == Lookup(p.actionStates, k)
    ensures WaitingIds(p.(actionStates := states)) == WaitingIds(p) - {id}
  {
    var r := p.(actionStates := states);
    forall x | x in WaitingIds(r) ensures x in WaitingIds(p) - {id} {
      var i :| 0 <= i < |r.actions| && Waiting(r.actionStates, r.actions[i]) && r.actions[i].id == x;
      assert Waiting(p.actionStates, p.actions[i]);
    }
    forall x | x in WaitingIds(p) - {id} ensures x in WaitingIds(r) {
      var i :| 0 <= i < |p.actions| && Waiting(p.actionStates, p.actions[i]) && p.actions[i].id == x;
      assert Waiting(r.actionStates, r.actions[i]);
    }
  }

  /** Every listed action has a record. */
  predicate Covered(p: Panel)
  {
    forall i :: 0 <= i < |p.actions| ==> Has(p.actionStates, p.actions[i].id)
  }

  /** With distinct ids, the id at position `m` is not among the ids of
      the actions before it. */
  lemma NotEarlier(all: seq<ActionData>, n: nat, m: nat)
    requires Distinct(Ids(all)) && n <= m < |all|
    ensures all[m].id !in Ids(all[..n])
  {
    forall t | 0 <= t < n ensures Ids(all[..n])[t] != all[m].id {
      assert Ids(all)[t] != Ids(all)[m];
    }
  }

  /** With distinct ids (as the hook's ids are), appending an action
      keeps every listed action's record, and the history stays within
      the limit. */
  lemma HandleActionKeepsCovered(p: Panel, a: ActionData)
    requires Covered(p) && |p.actions| <= HistoryLimit
    requires Distinct(Ids(p.actions + [a]))
    ensures var r := HandleAction(p, a); Covered(r) && |r.actions| <= HistoryLimit
  {
    forall i | 0 <= i < |HandleAction(p, a).actions|
      ensures Has(HandleAction(p, a).actionStates, HandleAction(p, a).actions[i].id)
    {
      KeptRecord(p, a, i);
    }
  }

  /** The action at position `i` of the capped history has a record. */
  lemma KeptRecord(p: Panel, a: ActionData, i: nat)
    requires Covered(p) && |p.actions| <= HistoryLimit
    requires Distinct(Ids(p.actions + [a]))
    requires i < |HandleAction(p, a).actions|
    ensures Has(HandleAction(p, a).actionStates, HandleAction(p, a).actions[i].id)
  {
    var all := p.actions + [a];
    var r := HandleAction(p, a);
    var n := |all| - |r.actions|;
    assert r.actions[i] == all[n + i];
    var k := all[n + i].id;
    NotEarlier(all, n, n + i);
    assert Dropped(all) == all[..n];
    assert k !in Ids(Dropped(all));
    if n + i == |p.actions| {
      NotEarlier(all, |p.actions|, |p.actions|);
      assert all[..|p.actions|] == p.actions;
    } else {
      assert all[n + i] == p.actions[n + i];
      assert Has(p.actionStates, k);
    }
  }

  /** The same for a batch whose ids are new and distinct. */
  lemma BatchKeepsCovered(p: Panel, batch: seq<ActionData>)
    requires Covered(p) && |p.actions| <= HistoryLimit
    requires Distinct(Ids(p.actions + batch))
    ensures var r := HandleActionsBatch(p, batch); Covered(r) && |r.actions| <= HistoryLimit
  {
    forall i | 0 <= i < |HandleActionsBatch(p, batch).actions|
      ensures Has(HandleActionsBatch(p, batch).actionStates, HandleActionsBatch(p, batch).actions[i].id)
    {
      KeptBatchRecord(p, batch, i);
    }
  }

  lemma KeptBatchRecord(p: Panel, batch: seq<ActionData>, i: nat)
    requires Covered(p) && Distinct(Ids(p.actions + batch))
    requires i < |HandleActionsBatch(p, batch).actions|
    ensures Has(HandleActionsBatch(p, batch).actionStates, HandleActionsBatch(p, batch).actions[i].id)
  {
    var all := p.actions + batch;
    var r := HandleActionsBatch(p, batch);
    var n := |all| - |r.actions|;
    KeptSuffix(all, r.actions, i);
    assert all[n + i].id !in Ids(Dropped(all)) by {
      NotEarlier(all, n, n + i);
      assert Dropped(all) == all[..n];
    }
    KeptBatchId(p, batch, n + i, r.actionStates);
  }

  /** A kept id has a record: the batch's snapshot or its earlier one. */
  lemma KeptBatchId(p: Panel, batch: seq<ActionData>, m: nat, states: seq<Entry<Record>>)
    requires Covered(p) && m < |p.actions + batch|
    requires (p.actions + batch)[m].id !in Ids(Dropped(p.actions + batch))
    requires forall k :: k in Ids(batch) && k !in Ids(Dropped(p.actions + batch)) ==>
      Lookup(states, k) == Some(Snapshots(Clone(Obj(p.currentState)), None))
    requires forall k :: k !in Ids(batch) ==>
      Lookup(states, k) == (if k in Ids(Dropped(p.actions + batch)) then None else Lookup(p.actionStates, k))
    ensures Has(states, (p.actions + batch)[m].id)
  {
    var k := (p.actions + batch)[m].id;
    if m >= |p.actions| {
      assert Ids(batch)[m - |p.actions|] == k;
    } else if k !in Ids(batch) {
      assert p.actions[m].id == k;
      assert Has(p.actionStates, k);
    }
  }

  /** The capped history is a suffix of what it was cut from. */
  lemma KeptSuffix(all: seq<ActionData>, kept: seq<ActionData>, i: nat)
    requires (|all| > HistoryLimit ==> kept == all[|all| - HistoryKeep..])
    requires (|all| <= HistoryLimit ==> kept == all)
    requires i < |kept|
    ensures |kept| <= |all| && kept[i] == all[|all| - |kept| + i]
  {
  }

  /** Filling a snapshot never removes a record. */
  lemma UpdateKeepsCovered(p: Panel, newState: seq<Entry<Value>>)
    requires Covered(p)
    ensures Covered(UpdateActionAfterState(p, newState))
  {
  }

  /** After a clear, the next action is the whole history and its record
      the only one. */
  lemma ClearThenAction(p: Panel, a: ActionData)
    ensures var r := HandleAction(ClearActions(p), a);
      && r.actions == [a] && Covered(r) && r.selectedAction.None?
      && forall k :: k != a.id ==> Lookup(r.actionStates, k) == None
  {
    var c := ClearActions(p);
    assert c.actions + [a] == [a];
  }
}
