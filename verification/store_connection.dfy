/** The Svelte panel's connection store: the message handler that keeps the
    current state, the action list (the newest 500) with their change
    records, and the source windows of stack frames fetched on demand; the
    filter it posts to the page; and clearing. */
module StoreConnection {
  import opened Wrappers
  import opened Assoc
  import opened Values
  import opened Correlator
  import opened PageHook
  import opened PanelState
  import StatePanel

  /** The action list keeps this many of the newest actions. */
  const ActionLimit := 500

  /** What `SINGLE_FRAME_SOURCE` stores for one frame. */
  datatype FrameSource = FrameSource(frame: Value, sourceLines: Value)

  /** An action in the list: the payload as received, and the sparse
      `stackWithSource` array (indexed by frame number) once a frame's
      source has arrived. */
  datatype Listed = Listed(data: ActionData, stackWithSource: Option<map<int, FrameSource>>)

  datatype Store = Store(
    currentState: seq<Entry<Value>>,
    selectedStores: seq<string>,
    actions: seq<Listed>,
    selectedAction: Option<Listed>,
    actionStates: seq<Entry<Record>>)

  /** `allStoreNames`, derived from the current state. */
  function AllStoreNames(s: Store): (r: seq<string>)
    ensures |r| == |s.currentState|
    ensures forall n :: n in r <==> Has(s.currentState, n)
  {
    Keys(s.currentState)
  }

  /** A message the store reacts to; the others fall through the switch. */
  datatype StoreMessage =
    | Detected
    | StateUpdated(state: seq<Entry<Value>>)
    | ActionIn(action: ActionData)
    | SingleFrameSource(actionId: string, frameIdx: int, source: FrameSource)
    | Other

  /** The newest `ActionLimit` entries of a list: its shortest suffix of
      at most that length that leaves nothing newer out. */
  predicate NewestOf(r: seq<Listed>, all: seq<Listed>)
  {
    && |r| == (if |all| > ActionLimit then ActionLimit else |all|)
    && r == all[|all| - |r|..]
  }

  /** The `ACTION` list update: append, then keep the newest 500. */
  function Append(actions: seq<Listed>, a: Listed): (r: seq<Listed>)
    ensures NewestOf(r, actions + [a])
    ensures |r| > 0 && r[|r| - 1] == a
  {
    var all := actions + [a];
    if |all| > ActionLimit then all[|all| - ActionLimit..] else all
  }

  /** `changes?.length > 0`. */
  predicate HasChanges(a: ActionData)
  {
    a.changes.Some? && |a.changes.value| > 0
  }

  /** `ACTION`: the payload joins the list, and its change list is filed
      under its id when it has one; a record is never removed here, even
      for an action the list drops. */
  function OnAction(s: Store, a: ActionData): (r: Store)
    ensures r == s.(actions := r.actions, actionStates := r.actionStates)
    ensures NewestOf(r.actions, s.actions + [Listed(a, None)])
    ensures HasChanges(a) ==> Lookup(r.actionStates, a.id) == Some(Changes(a.changes.value))
    ensures !HasChanges(a) ==> r.actionStates == s.actionStates
    ensures forall k :: k != a.id ==> Lookup(r.actionStates, k) == Lookup(s.actionStates, k)
    ensures forall k :: Has(s.actionStates, k) ==> Has(r.actionStates, k)
  {
    var states := if HasChanges(a) then Update(s.actionStates, a.id, Changes(a.changes.value)) else s.actionStates;
    s.(actions := Append(s.actions, Listed(a, None)), actionStates := states)
  }

  /** `stackWithSource = stackWithSource || []; stackWithSource[i] = ...`. */
  function SetFrame(a: Listed, idx: int, fs: FrameSource): (r: Listed)
    ensures r.data == a.data && r.stackWithSource.Some?
    ensures idx in r.stackWithSource.value && r.stackWithSource.value[idx] == fs
    ensures forall j :: j != idx ==>
      (j in r.stackWithSource.value <==> a.stackWithSource.Some? && j in a.stackWithSource.value)
    ensures forall j :: j != idx && j in r.stackWithSource.value ==> r.stackWithSource.value[j] == a.stackWithSource.value[j]
  {
    var frames := if a.stackWithSource.Some? then a.stackWithSource.value else map[];
    Listed(a.data, Some(frames[idx := fs]))
  }

  /** `list.find(a => a.id === actionId)`, as an index. */
  function FirstWithId(actions: seq<Listed>, id: string): (r: Option<nat>)
    ensures r.Some? ==> r.value < |actions| && actions[r.value].data.id == id
    ensures r.Some? ==> forall i :: 0 <= i < r.value ==> actions[i].data.id != id
    ensures r.None? ==> forall i :: 0 <= i < |actions| ==> actions[i].data.id != id
    decreases |actions|
  {
    if |actions| == 0 then None
    else if actions[0].data.id == id then Some(0)
    else match FirstWithId(actions[1..], id)
      case None => None
      case Some(j) => Some(j + 1)
  }

  /** `SINGLE_FRAME_SOURCE`: the frame's source lands on the first listed
      action with the id, and on the selected action when it has that id. */
  function OnSingleFrame(s: Store, actionId: string, idx: int, fs: FrameSource): (r: Store)
    ensures r == s.(actions := r.actions, selectedAction := r.selectedAction)
    ensures |r.actions| == |s.actions|
    ensures FirstWithId(s.actions, actionId).None? ==> r.actions == s.actions
    ensures FirstWithId(s.actions, actionId).Some? ==>
      var j := FirstWithId(s.actions, actionId).value;
      r.actions == s.actions[j := SetFrame(s.actions[j], idx, fs)]
    ensures s.selectedAction.Some? && s.selectedAction.value.data.id == actionId ==>
      r.selectedAction == Some(SetFrame(s.selectedAction.value, idx, fs))
    ensures !(s.selectedAction.Some? && s.selectedAction.value.data.id == actionId) ==>
      r.selectedAction == s.selectedAction
  {
    var list := match FirstWithId(s.actions, actionId)
      case None => s.actions
      case Some(j) => s.actions[j := SetFrame(s.actions[j], idx, fs)];
    var sel := match s.selectedAction
      case Some(a) => if a.data.id == actionId then Some(SetFrame(a, idx, fs)) else s.selectedAction
      case None => None;
    s.(actions := list, selectedAction := sel)
  }

  /** `sendFilterToPage`: the selected names, `[]` when there are none. */
  function SendFilterToPage(s: Store): (m: Message)
    ensures m.SetFilter? && m.stores.Some?
    ensures forall n :: n in m.stores.value <==> n in s.selectedStores
  {
    StatePanel.FilterMessage(s.selectedStores)
  }

  /** `handleMessage`, with the messages it posts to the page. */
  function HandleMessage(s: Store, m: StoreMessage): (r: (Store, seq<Message>))
    ensures m.Detected? <==> r.1 != []
    ensures m.Detected? ==> r == (s, [SendFilterToPage(s), GetState])
    ensures m.StateUpdated? ==> r.0 == s.(currentState := m.state)
    ensures r.0.selectedStores == s.selectedStores
  {
    match m
    case Detected => (s, [SendFilterToPage(s), GetState])
    case StateUpdated(state) => (s.(currentState := state), [])
    case ActionIn(a) => (OnAction(s, a), [])
    case SingleFrameSource(actionId, idx, fs) => (OnSingleFrame(s, actionId, idx, fs), [])
    case Other => (s, [])
  }

  /** `saveSelectedStores`: the new selection, posted to the page. */
  function SaveSelectedStores(s: Store, stores: seq<string>): (r: (Store, Message))
    ensures r.0 == s.(selectedStores := stores)
    ensures r.1 == SendFilterToPage(r.0)
  {
    var t := s.(selectedStores := stores);
    (t, SendFilterToPage(t))
  }

  /** `clearActions`. */
  function ClearActions(s: Store): (r: Store)
    ensures r.actions == [] && r.actionStates == [] && r.selectedAction.None?
    ensures r.currentState == s.currentState && r.selectedStores == s.selectedStores
  {
    s.(actions := [], actionStates := [], selectedAction := None)
  }

  /** Feeds a sequence of messages, keeping the posted ones in order. */
  function Run(s: Store, ms: seq<StoreMessage>): (Store, seq<Message>)
    decreases |ms|
  {
    if |ms| == 0 then (s, [])
    else
      var r := HandleMessage(s, ms[0]);
      var rest := Run(r.0, ms[1..]);
      (rest.0, r.1 + rest.1)
  }

  /** The actions as listed on arrival. */
  function Arrivals(batch: seq<ActionData>): (r: seq<Listed>)
    ensures |r| == |batch|
    ensures forall i :: 0 <= i < |batch| ==> r[i] == Listed(batch[i], None)
  {
    seq(|batch|, i requires 0 <= i < |batch| => Listed(batch[i], None))
  }

  /** The messages that deliver `batch` one action at a time. */
  function ActionMessages(batch: seq<ActionData>): (ms: seq<StoreMessage>)
    ensures |ms| == |batch|
    ensures forall i :: 0 <= i < |batch| ==> ms[i] == ActionIn(batch[i])
  {
    seq(|batch|, i requires 0 <= i < |batch| => ActionIn(batch[i]))
  }

  /** Trimming at every arrival keeps what a single trim at the end would:
      the list is always the newest 500 of everything received. */
  lemma {:induction false} ListKeepsNewest(s: Store, batch: seq<ActionData>, all: seq<Listed>)
    requires NewestOf(s.actions, all)
    ensures NewestOf(Run(s, ActionMessages(batch)).0.actions, all + Arrivals(batch))
    decreases |batch|
  {
    if |batch| == 0 {
      assert all + Arrivals(batch) == all;
    } else {
      var a := Listed(batch[0], None);
      var t := OnAction(s, batch[0]);
      RunActionsCons(s, batch);
      NewestStep(s.actions, all, a, t.actions);
      ListKeepsNewest(t, batch[1..], all + [a]);
      ArrivalsCons(all, batch);
    }
  }

  lemma RunActionsCons(s: Store, batch: seq<ActionData>)
    requires |batch| > 0
    ensures Run(s, ActionMessages(batch)).0 == Run(OnAction(s, batch[0]), ActionMessages(batch[1..])).0
  {
    var ms := ActionMessages(batch);
    assert ms[1..] == ActionMessages(batch[1..]);
  }

  lemma ArrivalsCons(all: seq<Listed>, batch: seq<ActionData>)
    requires |batch| > 0
    ensures (all + [Listed(batch[0], None)]) + Arrivals(batch[1..]) == all + Arrivals(batch)
  {
    assert Arrivals(batch) == [Listed(batch[0], None)] + Arrivals(batch[1..]);
  }

  /** One arrival keeps the window: the newest entries of a list, plus one,
      trimmed, are the newest entries of the longer list. */
  lemma NewestStep(window: seq<Listed>, all: seq<Listed>, a: Listed, r: seq<Listed>)
    requires NewestOf(window, all) && NewestOf(r, window + [a])
    ensures NewestOf(r, all + [a])
  {
    var n := |all| + 1;
    assert (all + [a])[n - |r|..] == all[|all| - |r| + 1..] + [a];
    if |all| > ActionLimit {
      assert window[|window| + 1 - |r|..] == all[|all| - |r| + 1..];
    }
  }

  /** A change record, once filed, stays until the list is cleared, also
      after its action has been dropped from the list. */
  lemma RecordsOutliveActions(s: Store, ms: seq<StoreMessage>, k: string)
    requires Has(s.actionStates, k)
    ensures Has(Run(s, ms).0.actionStates, k)
    decreases |ms|
  {
    if |ms| > 0 {
      var t := HandleMessage(s, ms[0]).0;
      assert Has(t.actionStates, k);
      RecordsOutliveActions(t, ms[1..], k);
    }
  }

  /** After `SINGLE_FRAME_SOURCE` for a listed id, that action shows the
      frame's source and every other listed action is as it was. */
  lemma FrameReadBack(s: Store, actionId: string, idx: int, fs: FrameSource, j: nat)
    requires j < |s.actions| && s.actions[j].data.id == actionId
    requires forall i :: 0 <= i < j ==> s.actions[i].data.id != actionId
    ensures var r := OnSingleFrame(s, actionId, idx, fs).actions;
      && r[j].stackWithSource.Some? && idx in r[j].stackWithSource.value
      && r[j].stackWithSource.value[idx] == fs
      && forall i :: 0 <= i < |r| && i != j ==> r[i] == s.actions[i]
  {
    var f := FirstWithId(s.actions, actionId);
    assert f.Some? && f.value == j;
  }

  /** When the detail view shows the first listed action with the id, the
      two copies stay equal after its frame source arrives. */
  lemma SelectionStaysInStep(s: Store, actionId: string, idx: int, fs: FrameSource, j: nat)
    requires FirstWithId(s.actions, actionId) == Some(j)
    requires s.selectedAction == Some(s.actions[j])
    ensures var r := OnSingleFrame(s, actionId, idx, fs);
      r.selectedAction == Some(r.actions[j])
  {
  }

  /** Once the page has the filter that `saveSelectedStores` posts, it
      files the changes of exactly the chosen stores. */
  lemma SavedFilterReachesPage(s: Store, stores: seq<string>, page: Page,
                               plain: Value -> Value, parseNumber: string -> Option<int>, name: string)
    ensures var m := SaveSelectedStores(s, stores).1;
      IsFiltered(Handle(page, m, plain, parseNumber).0.hook.filter, name) <==> name in stores
  {
    var m := SaveSelectedStores(s, stores).1;
    if name in stores {
      assert name in m.stores.value;
    }
  }
}
