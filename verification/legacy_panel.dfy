/** The single-file panel (`panel.js`) that predates the split into
    modules. Its path parser, diff, chunk reassembly, batch handling, store
    filter and inline editor are the same code as the split panel's and are
    shared with it here; what differs is what it files for a single action
    (always a before snapshot awaiting its after) and how a state update
    fills that after (with a copy of the whole new state). */
module LegacyPanel {
  import opened Wrappers
  import opened Assoc
  import opened Values
  import opened PageHook
  import opened PanelState
  import opened ActionsPanel
  import opened PanelConnection

  /** `ACTION`: the action is appended and filed with a copy of the state
      before it and a `null` after, whatever the payload carries; then the
      history is capped. */
  function RecordAction(p: Panel, a: ActionData): (r: Panel)
    ensures r == p.(actions := r.actions, actionStates := r.actionStates)
    ensures var all := p.actions + [a];
      && (|all| > HistoryLimit ==> r.actions == all[|all| - HistoryKeep..])
      && (|all| <= HistoryLimit ==> r.actions == all)
    ensures a.id !in Ids(p.actions) ==> Lookup(r.actionStates, a.id) == Some(Snapshots(Clone(Obj(p.currentState)), None))
    ensures forall k :: k != a.id ==>
      Lookup(r.actionStates, k) == (if k in Ids(Dropped(p.actions + [a])) then None else Lookup(p.actionStates, k))
  {
    var c := Cap(p.actions + [a], Update(p.actionStates, a.id, Snapshots(Clone(Obj(p.currentState)), None)));
    DroppedIds(p.actions, a);
    p.(actions := c.0, actionStates := c.1)
  }

  /** `state && !state.after`: the action has a record whose after is
      missing or falsy. */
  predicate Unfilled(states: seq<Entry<Record>>, a: ActionData)
  {
    var rec := Lookup(states, a.id);
    rec.Some? && rec.value.Snapshots? && (rec.value.after.None? || !Truthy(rec.value.after.value))
  }

  /** The position of the newest unfilled action, searching from the end. */
  function LastUnfilled(actions: seq<ActionData>, states: seq<Entry<Record>>): (r: Option<nat>)
    ensures r.Some? ==> r.value < |actions| && Unfilled(states, actions[r.value])
    ensures r.Some? ==> forall i :: r.value < i < |actions| ==> !Unfilled(states, actions[i])
    ensures r.None? ==> forall i :: 0 <= i < |actions| ==> !Unfilled(states, actions[i])
    decreases |actions|
  {
    if |actions| == 0 then None
    else if Unfilled(states, actions[|actions| - 1]) then Some(|actions| - 1)
    else LastUnfilled(actions[..|actions| - 1], states)
  }

  /** `JSON.parse(JSON.stringify(state))` of a whole state. */
  function Copy(state: seq<Entry<Value>>): Value
  {
    Clone(Obj(state))
  }

  /** The after-fill of `STATE_UPDATE`: the newest unfilled action, and
      only that one, gets a copy of the whole new state as its after. */
  function FillAfter(p: Panel, newState: seq<Entry<Value>>): (r: Panel)
    ensures r == p.(actionStates := r.actionStates)
    ensures (forall i :: 0 <= i < |p.actions| ==> !Unfilled(p.actionStates, p.actions[i])) ==> r == p
    ensures LastUnfilled(p.actions, p.actionStates).Some? ==>
      var a := p.actions[LastUnfilled(p.actions, p.actionStates).value];
      && Lookup(r.actionStates, a.id) == Some(Snapshots(Lookup(p.actionStates, a.id).value.before, Some(Copy(newState))))
      && forall k :: k != a.id ==> Lookup(r.actionStates, k) == Lookup(p.actionStates, k)
  {
    match LastUnfilled(p.actions, p.actionStates)
    case None => p
    case Some(j) =>
      var a := p.actions[j];
      var rec := Lookup(p.actionStates, a.id).value;
      p.(actionStates := Update(p.actionStates, a.id, Snapshots(rec.before, Some(Copy(newState)))))
  }

  /** The fill lands on the newest unfilled action: its after becomes the
      copy of the new state, and every other record stays. */
  lemma FillTargetsNewest(p: Panel, newState: seq<Entry<Value>>, j: nat)
    requires j < |p.actions| && Unfilled(p.actionStates, p.actions[j])
    requires forall i :: j < i < |p.actions| ==> !Unfilled(p.actionStates, p.actions[i])
    ensures var a := p.actions[j]; var r := FillAfter(p, newState).actionStates;
      && Lookup(r, a.id) == Some(Snapshots(Lookup(p.actionStates, a.id).value.before, Some(Copy(newState))))
      && forall k :: k != a.id ==> Lookup(r, k) == Lookup(p.actionStates, k)
  {
    LastUnfilledUnique(p.actions, p.actionStates, j);
  }

  lemma LastUnfilledUnique(actions: seq<ActionData>, states: seq<Entry<Record>>, j: nat)
    requires j < |actions| && Unfilled(states, actions[j])
    requires forall i :: j < i < |actions| ==> !Unfilled(states, actions[i])
    ensures LastUnfilled(actions, states) == Some(j)
  {
  }

  /** Which record a state update fills depends on the history alone. */
  lemma FillIgnoresCurrent(p: Panel, fields: seq<Entry<Value>>, newState: seq<Entry<Value>>)
    ensures FillAfter(Replace(p, fields), newState).actionStates == FillAfter(p, newState).actionStates
  {
    var q := Replace(p, fields);
    assert q.actions == p.actions && q.actionStates == p.actionStates;
  }

  /** `STATE_UPDATE`: held back while a value is being edited; otherwise
      the state is replaced and the newest unfilled action filled. A
      snapshot naming a new store refreshes the store list while the
      filter is open. */
  function ReceiveState(p: Panel, state: seq<Entry<Value>>, filterOpen: bool): (r: Panel)
    ensures r.actions == p.actions && r.selectedStores == p.selectedStores && r.isEditing == p.isEditing
    ensures p.isEditing ==> r.currentState == p.currentState && r.actionStates == p.actionStates
    ensures !p.isEditing ==>
      && r.currentState == state && !r.reassembly.aliased
      && r.actionStates == FillAfter(p, state).actionStates
    ensures r.allStoreNames != p.allStoreNames ==> filterOpen && NamesNewStore(state, p.allStoreNames)
    ensures Coherent(p) ==> Coherent(r)
  {
    var q := if p.isEditing then p else FillAfter(Replace(p, state), state);
    FillIgnoresCurrent(p, state, state);
    if NamesNewStore(state, p.allStoreNames) && filterOpen then q.(allStoreNames := Keys(q.currentState)) else q
  }

  /** `handleMobXMessage` of the single-file panel. It has no case for the
      stack-source replies, which fall through. */
  function HandleLegacy(p: Panel, m: Incoming, filterOpen: bool): (r: (Panel, seq<Message>))
    ensures m.Detected? <==> r.1 != []
    ensures m.Detected? ==> r == (p, [SendFilterToPage(p), GetState])
    ensures m.StackSource? || m.SingleFrameSource? || m.Other? ==> r == (p, [])
  {
    match m
    case Detected => (p, [SendFilterToPage(p), GetState])
    case InitialState(state) => (Replace(p, state), [])
    case StoreData(timestamp, total, name, data) => (ReceiveChunk(p, timestamp, total, name, data), [])
    case StateUpdated(state) => (ReceiveState(p, state, filterOpen), [])
    case ActionIn(a) => (RecordAction(p, a), [])
    case ActionsBatch(batch) => (HandleActionsBatch(p, batch), [])
    case ActionsUpdate(list) => (p.(actions := list), [])
    case StackSource => (p, [])
    case SingleFrameSource => (p, [])
    case Other => (p, [])
  }

  /** The single-file panel and the split panel react alike to everything
      but single actions and state updates. */
  lemma LegacyAgreesElsewhere(p: Panel, m: Incoming, filterOpen: bool)
    requires !m.ActionIn? && !m.StateUpdated?
    ensures HandleLegacy(p, m, filterOpen) == HandleMobXMessage(p, m, filterOpen)
  {
  }

  /** Where they differ: for a new action carrying changes, the split
      panel files the changes while the single-file panel files a before
      snapshot still awaiting its after. */
  lemma LegacyFilesSnapshot(p: Panel, a: ActionData)
    requires a.id !in Ids(p.actions) && a.changes.Some? && |a.changes.value| > 0
    ensures Lookup(RecordAction(p, a).actionStates, a.id) == Some(Snapshots(Clone(Obj(p.currentState)), None))
    ensures Lookup(HandleAction(p, a).actionStates, a.id) == Some(Changes(a.changes.value))
  {
  }

  /** Every record is a before/after pair. */
  ghost predicate SnapshotsOnly(states: seq<Entry<Record>>)
  {
    forall k :: Lookup(states, k).Some? ==> Lookup(states, k).value.Snapshots?
  }

  /** The single-file panel only ever files snapshots, so its `!after`
      test never meets a change list. */
  lemma LegacyKeepsSnapshots(p: Panel, m: Incoming, filterOpen: bool)
    requires SnapshotsOnly(p.actionStates)
    ensures SnapshotsOnly(HandleLegacy(p, m, filterOpen).0.actionStates)
  {
    var r := HandleLegacy(p, m, filterOpen).0;
    match m
    case StateUpdated(state) =>
      if !p.isEditing {
        FillKeepsSnapshots(p, state);
      }
    case ActionIn(a) =>
      RecordKeepsSnapshots(p, a);
    case ActionsBatch(batch) =>
      BatchKeepsSnapshots(p, batch);
    case _ =>
      assert r.actionStates == p.actionStates;
  }

  lemma BatchKeepsSnapshots(p: Panel, batch: seq<ActionData>)
    requires SnapshotsOnly(p.actionStates)
    ensures SnapshotsOnly(HandleActionsBatch(p, batch).actionStates)
  {
    var r := HandleActionsBatch(p, batch).actionStates;
    forall k | Lookup(r, k).Some? ensures Lookup(r, k).value.Snapshots? {
      if k !in Ids(batch) {
        assert Lookup(r, k) == Lookup(p.actionStates, k);
      }
    }
  }

  lemma RecordKeepsSnapshots(p: Panel, a: ActionData)
    requires SnapshotsOnly(p.actionStates)
    ensures SnapshotsOnly(RecordAction(p, a).actionStates)
  {
    var filed := Update(p.actionStates, a.id, Snapshots(Clone(Obj(p.currentState)), None));
    var c := Cap(p.actions + [a], filed);
    assert RecordAction(p, a).actionStates == c.1;
    forall k | Lookup(c.1, k).Some? ensures Lookup(c.1, k).value.Snapshots? {
      assert Lookup(c.1, k) == Lookup(filed, k);
    }
  }

  lemma FillKeepsSnapshots(p: Panel, state: seq<Entry<Value>>)
    requires SnapshotsOnly(p.actionStates)
    ensures SnapshotsOnly(FillAfter(p, state).actionStates)
  {
    var r := FillAfter(p, state);
    match LastUnfilled(p.actions, p.actionStates)
    case None =>
    case Some(j) =>
      forall k | Lookup(r.actionStates, k).Some? ensures Lookup(r.actionStates, k).value.Snapshots? {
        if k != p.actions[j].id {
          assert Lookup(r.actionStates, k) == Lookup(p.actionStates, k);
        }
      }
  }

  /** A fill settles the action it fills, since a copy of an object is
      truthy, and no other action's status changes. */
  lemma FillSettlesOne(p: Panel, newState: seq<Entry<Value>>, j: nat)
    requires LastUnfilled(p.actions, p.actionStates) == Some(j)
    ensures var r := FillAfter(p, newState);
      && !Unfilled(r.actionStates, p.actions[j])
      && forall i :: 0 <= i < |p.actions| && p.actions[i].id != p.actions[j].id ==>
           (Unfilled(r.actionStates, p.actions[i]) <==> Unfilled(p.actionStates, p.actions[i]))
  {
    CloneObj(newState);
  }
}
