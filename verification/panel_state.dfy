/** The devtools panel's shared state (`window.MobXDevToolsState`): the
    last state snapshot, the action history with one record per action
    id, the store selection, the editing flag and the half-assembled
    `STORE_DATA` batch. */
module PanelState {
  import opened Wrappers
  import opened Assoc
  import opened Values

  /** An action as the panel receives it. `store` is its `object` property, the store name, with
      `None` for `undefined`; `changes` is `None` when the payload has no
      change list. */
  datatype ActionData = ActionData(
    id: string,
    name: string,
    store: Option<string>,
    changes: Option<seq<Value>>,
    beforeState: Value,
    afterState: Value)

  /** What `actionStates` holds for an action id: the changes the hook
      recorded, or a before/after pair of snapshots whose `after` is `null`
      (`None`) until a state update fills it. */
  datatype Record = Changes(changes: seq<Value>) | Snapshots(before: Value, after: Option<Value>)

  /** The property name an action's store name becomes when it is used as
      an object key: `undefined` turns into `"undefined"`. */
  function ObjectKey(store: Option<string>): (k: string)
    ensures store.Some? ==> k == store.value
  {
    match store
    case Some(name) => name
    case None => "undefined"
  }

  /** The ids of a list of actions, in order. */
  function Ids(actions: seq<ActionData>): (r: seq<string>)
    ensures |r| == |actions|
    ensures forall i :: 0 <= i < |actions| ==> r[i] == actions[i].id
  {
    seq(|actions|, i requires 0 <= i < |actions| => actions[i].id)
  }

  /** The chunked-snapshot buffer: the stores received so far for the batch
      stamped `lastTimestamp`, the number of stores that batch announced,
      and whether `currentState` is this very object (after a commit the two
      names refer to one object until either is reassigned). */
  datatype Reassembly = Reassembly(
    stores: seq<Entry<Value>>,
    lastTimestamp: Option<int>,
    expected: int,
    aliased: bool)

  datatype Panel = Panel(
    currentState: seq<Entry<Value>>,
    actions: seq<ActionData>,
    actionStates: seq<Entry<Record>>,
    selectedAction: Option<ActionData>,
    selectedStores: seq<string>,
    allStoreNames: seq<string>,
    isEditing: bool,
    reassembly: Reassembly)

  /** The state right after load. */
  function Initial(selectedStores: seq<string>): (p: Panel)
    ensures p.actions == [] && p.actionStates == [] && p.selectedAction.None?
    ensures p.currentState == [] && !p.isEditing && !p.reassembly.aliased
  {
    Panel([], [], [], None, selectedStores, [], false, Reassembly([], None, 0, false))
  }

  /** The two views of `currentState` agree while they are one object. */
  predicate Coherent(p: Panel)
  {
    p.reassembly.aliased ==> p.currentState == p.reassembly.stores
  }

  /** `currentState = fields`: a new object, no longer the buffer. */
  function Replace(p: Panel, fields: seq<Entry<Value>>): (r: Panel)
    ensures r.currentState == fields && !r.reassembly.aliased
    ensures r.reassembly.stores == p.reassembly.stores
    ensures Coherent(r)
  {
    p.(currentState := fields, reassembly := p.reassembly.(aliased := false))
  }

  /** An in-place change of `currentState`: seen through the buffer too
      while the two are one object. */
  function WriteThrough(p: Panel, fields: seq<Entry<Value>>): (r: Panel)
    ensures r.currentState == fields
    ensures r.reassembly.aliased == p.reassembly.aliased
    ensures !p.reassembly.aliased ==> r.reassembly == p.reassembly
    ensures Coherent(r)
  {
    if p.reassembly.aliased then p.(currentState := fields, reassembly := p.reassembly.(stores := fields))
    else p.(currentState := fields)
  }
}
