/** The panel's side of the connection: the dispatch of messages from the
    page (`handleMobXMessage`), the reassembly of a state snapshot sent
    one store at a time, the filter it posts to the page, and the
    reconnect counter of the background port. */
module PanelConnection {
  import opened Wrappers
  import opened Assoc
  import opened Values
  import opened PageHook
  import opened PanelState
  import opened ActionsPanel
  import opened StatePanel

  /** A message from the page, as the panel reads it. */
  datatype Incoming =
    | Detected
    | InitialState(state: seq<Entry<Value>>)
    | StoreData(timestamp: int, total: int, name: string, data: Value)
    | StateUpdated(state: seq<Entry<Value>>)
    | ActionIn(action: ActionData)
    | ActionsBatch(actions: seq<ActionData>)
    | ActionsUpdate(actions: seq<ActionData>)
    | StackSource
    | SingleFrameSource
    | Other

  /** `sendFilterToPage`: the selected stores, `[]` when none is
      selected. */
  function SendFilterToPage(p: Panel): (m: Message)
    ensures m == SetFilter(Some(p.selectedStores))
  {
    FilterMessage(p.selectedStores)
  }

  /** One `STORE_DATA` chunk: a timestamp other than the last one starts a
      new batch (a fresh buffer expecting `total` stores); the chunk is set
      under its store name; once the buffer holds as many stores as
      expected it becomes the current state. While the current state is
      the committed buffer, a later chunk of the same batch lands in both. */
  function ReceiveChunk(p: Panel, timestamp: int, total: int, name: string, data: Value): (r: Panel)
    ensures r == p.(currentState := r.currentState, reassembly := r.reassembly)
    ensures r.reassembly.lastTimestamp == Some(timestamp)
    ensures p.reassembly.lastTimestamp != Some(timestamp) ==>
      r.reassembly.expected == total && r.reassembly.stores == [Entry(name, data)]
    ensures p.reassembly.lastTimestamp == Some(timestamp) ==>
      && r.reassembly.expected == p.reassembly.expected
      && r.reassembly.stores == Update(p.reassembly.stores, name, data)
    ensures |r.reassembly.stores| == r.reassembly.expected ==> r.currentState == r.reassembly.stores && r.reassembly.aliased
    ensures |r.reassembly.stores| != r.reassembly.expected ==>
      r.reassembly.aliased == (p.reassembly.aliased && p.reassembly.lastTimestamp == Some(timestamp))
    ensures |r.reassembly.stores| != r.reassembly.expected && !r.reassembly.aliased ==> r.currentState == p.currentState
    ensures Coherent(r)
  {
    var b := if p.reassembly.lastTimestamp != Some(timestamp) then Reassembly([], Some(timestamp), total, false)
             else p.reassembly;
    var stores := Update(b.stores, name, data);
    var current := if b.aliased then stores else p.currentState;
    if |stores| == b.expected then p.(currentState := stores, reassembly := b.(stores := stores, aliased := true))
    else p.(currentState := current, reassembly := b.(stores := stores))
  }

  /** `handleMobXMessage`; `filterOpen` says whether the store filter is on
      screen, which decides whether new store names refresh the list the
      "Select All" button uses. The handlers of `STACK_SOURCE` and
      `SINGLE_FRAME_SOURCE` are not defined, so those messages throw before
      changing anything. */
  function HandleMobXMessage(p: Panel, m: Incoming, filterOpen: bool): (r: (Panel, seq<Message>))
    ensures m.Detected? <==> r.1 != []
    ensures m.Detected? ==> r == (p, [SendFilterToPage(p), GetState])
  {
    match m
    case Detected => (p, [SendFilterToPage(p), GetState])
    case InitialState(state) => (Replace(p, state), [])
    case StoreData(timestamp, total, name, data) => (ReceiveChunk(p, timestamp, total, name, data), [])
    case StateUpdated(state) => (OnStateUpdate(p, state, filterOpen), [])
    case ActionIn(a) => (HandleAction(p, a), [])
    case ActionsBatch(batch) => (HandleActionsBatch(p, batch), [])
    case ActionsUpdate(list) => (p.(actions := list), [])
    case StackSource => (p, [])
    case SingleFrameSource => (p, [])
    case Other => (p, [])
  }

  /** Whether a snapshot names a store the panel has not listed yet. */
  predicate NamesNewStore(state: seq<Entry<Value>>, known: seq<string>)
  {
    exists i :: 0 <= i < |state| && state[i].key !in known
  }

  /** The `STATE_UPDATE` handler. A state update while a value is being
      edited leaves the state and the action records alone; otherwise it
      replaces the state and fills the newest waiting action's `after`. A
      snapshot naming a new store refreshes the store list while the
      filter is open. */
  function OnStateUpdate(p: Panel, state: seq<Entry<Value>>, filterOpen: bool): (r: Panel)
    ensures r.actions == p.actions && r.selectedStores == p.selectedStores && r.isEditing == p.isEditing
    ensures p.isEditing ==> r.currentState == p.currentState && r.actionStates == p.actionStates
    ensures !p.isEditing ==>
      && r.currentState == state && !r.reassembly.aliased
      && r.actionStates == UpdateActionAfterState(p, state).actionStates
    ensures r.allStoreNames != p.allStoreNames ==> filterOpen && NamesNewStore(state, p.allStoreNames)
  {
    var q := if p.isEditing then p else UpdateActionAfterState(Replace(p, state), state);
    AfterStateIgnoresCurrent(p, state, state);
    if NamesNewStore(state, p.allStoreNames) && filterOpen then q.(allStoreNames := Keys(q.currentState)) else q
  }

  /** Which record a state update fills depends on the history alone. */
  lemma AfterStateIgnoresCurrent(p: Panel, fields: seq<Entry<Value>>, state: seq<Entry<Value>>)
    ensures UpdateActionAfterState(Replace(p, fields), state).actionStates == UpdateActionAfterState(p, state).actionStates
  {
    var q := Replace(p, fields);
    assert q.actions == p.actions && q.actionStates == p.actionStates;
  }

  /** Every message keeps the two views of the committed snapshot in step. */
  lemma HandleKeepsCoherent(p: Panel, m: Incoming, filterOpen: bool)
    requires Coherent(p)
    ensures Coherent(HandleMobXMessage(p, m, filterOpen).0)
  {
  }

  /** Feeds the chunks of one batch, in order, with the same timestamp and
      a total equal to their number. */
  function Feed(p: Panel, timestamp: int, total: int, chunks: seq<Entry<Value>>): Panel
    decreases |chunks|
  {
    if |chunks| == 0 then p
    else Feed(ReceiveChunk(p, timestamp, total, chunks[0].key, chunks[0].val), timestamp, total, chunks[1..])
  }

  /** The reassembly round trip: a snapshot sent as one chunk per store
      under a new timestamp becomes the current state exactly when its
      last chunk arrives, store for store and in the order sent; before
      that the current state is untouched. */
  lemma {:induction false} ChunksRebuildSnapshot(p: Panel, timestamp: int, chunks: seq<Entry<Value>>, m: nat)
    requires |chunks| > 0 && UniqueKeys(chunks) && 1 <= m <= |chunks|
    requires p.reassembly.lastTimestamp != Some(timestamp)
    ensures var r := Feed(p, timestamp, |chunks|, chunks[..m]);
      && r.reassembly.stores == chunks[..m]
      && r.reassembly.lastTimestamp == Some(timestamp) && r.reassembly.expected == |chunks|
      && (m < |chunks| ==> r.currentState == p.currentState && !r.reassembly.aliased)
      && (m == |chunks| ==> r.currentState == chunks && r.reassembly.aliased)
    decreases m
  {
    var n := |chunks|;
    if m == 1 {
      assert chunks[..1] == [chunks[0]];
      assert Feed(p, timestamp, n, chunks[..1]) == ReceiveChunk(p, timestamp, n, chunks[0].key, chunks[0].val);
    } else {
      var sofar, c := chunks[..m - 1], chunks[m - 1];
      TakeSnoc(chunks, m);
      ChunksRebuildSnapshot(p, timestamp, chunks, m - 1);
      FeedSnoc(p, timestamp, n, sofar, c);
      PrefixLacksNext(chunks, m - 1);
      UpdateAppends(sofar, c.key, c.val);
      ChunkStep(Feed(p, timestamp, n, sofar), timestamp, n, sofar, c, p.currentState);
    }
  }

  lemma TakeSnoc<T>(s: seq<T>, m: nat)
    requires 1 <= m <= |s|
    ensures s[..m - 1] + [s[m - 1]] == s[..m]
  {
  }

  /** One more chunk of a batch in progress, with a name it lacks. */
  lemma ChunkStep(q: Panel, timestamp: int, n: int, sofar: seq<Entry<Value>>, c: Entry<Value>, current: seq<Entry<Value>>)
    requires q.reassembly.stores == sofar && q.reassembly.lastTimestamp == Some(timestamp) && q.reassembly.expected == n
    requires q.currentState == current && !q.reassembly.aliased && |sofar| < n
    requires Update(sofar, c.key, c.val) == sofar + [c]
    ensures var r := ReceiveChunk(q, timestamp, n, c.key, c.val);
      && r.reassembly.stores == sofar + [c]
      && r.reassembly.lastTimestamp == Some(timestamp) && r.reassembly.expected == n
      && (|sofar| + 1 < n ==> r.currentState == current && !r.reassembly.aliased)
      && (|sofar| + 1 == n ==> r.currentState == sofar + [c] && r.reassembly.aliased)
  {
  }

  lemma {:induction false} FeedSnoc(p: Panel, timestamp: int, total: int, chunks: seq<Entry<Value>>, c: Entry<Value>)
    ensures Feed(p, timestamp, total, chunks + [c]) == ReceiveChunk(Feed(p, timestamp, total, chunks), timestamp, total, c.key, c.val)
    decreases |chunks|
  {
    if |chunks| == 0 {
      assert chunks + [c] == [c];
    } else {
      assert (chunks + [c])[1..] == chunks[1..] + [c];
      FeedSnoc(ReceiveChunk(p, timestamp, total, chunks[0].key, chunks[0].val), timestamp, total, chunks[1..], c);
    }
  }

  /** A chunk of an already committed batch arriving late still shows up
      in the current state, since the state is the batch's own buffer. */
  lemma LateChunkShows(p: Panel, timestamp: int, total: int, name: string, data: Value)
    requires Coherent(p) && p.reassembly.aliased && p.reassembly.lastTimestamp == Some(timestamp)
    ensures var r := ReceiveChunk(p, timestamp, total, name, data);
      r.currentState == Update(p.currentState, name, data)
  {
  }

  /** The most reconnections in a row the panel means to attempt. */
  const MaxReconnectAttempts := 3

  /** What the background port does: a (re)connection that got as far as
      installing its listeners, a disconnection, or a message delivered
      over the port. */
  datatype LinkEvent = Connected | Disconnected | Delivered

  /** The reconnect counter, the number of reconnections scheduled so far,
      and whether the panel has shown "Connection lost". */
  datatype Link = Link(attempts: nat, reconnects: nat, lost: bool)

  /** The disconnect listener: below the limit, count the attempt and
      schedule a reconnection; at the limit, give up. */
  function OnDisconnect(l: Link): (r: Link)
    ensures l.attempts < MaxReconnectAttempts ==> r == Link(l.attempts + 1, l.reconnects + 1, l.lost)
    ensures l.attempts >= MaxReconnectAttempts ==> r == l.(lost := true)
  {
    if l.attempts < MaxReconnectAttempts then l.(attempts := l.attempts + 1, reconnects := l.reconnects + 1)
    else l.(lost := true)
  }

  /** The counter as written: every connection that installs its listeners
      clears it. */
  function StepAsWritten(l: Link, e: LinkEvent): Link
  {
    match e
    case Connected => l.(attempts := 0)
    case Disconnected => OnDisconnect(l)
    case Delivered => l
  }

  /** The counter as evidently intended: only a connection that has
      delivered a message proves the link works and clears it. */
  function StepCorrected(l: Link, e: LinkEvent): Link
  {
    match e
    case Connected => l
    case Disconnected => OnDisconnect(l)
    case Delivered => l.(attempts := 0)
  }

  function RunAsWritten(l: Link, es: seq<LinkEvent>): Link
    decreases |es|
  {
    if |es| == 0 then l else RunAsWritten(StepAsWritten(l, es[0]), es[1..])
  }

  function RunCorrected(l: Link, es: seq<LinkEvent>): Link
    decreases |es|
  {
    if |es| == 0 then l else RunCorrected(StepCorrected(l, es[0]), es[1..])
  }

  /** `n` rounds of a port that connects and drops at once. */
  function Flaps(n: nat): (es: seq<LinkEvent>)
    ensures |es| == 2 * n
    ensures forall i :: 0 <= i < |es| ==> es[i] != Delivered
  {
    if n == 0 then [] else [Connected, Disconnected] + Flaps(n - 1)
  }

  /** As written, the counter never passes one: a port that keeps dropping
      is reconnected every time, and "Connection lost" is never shown. */
  lemma {:induction false} AsWrittenNeverGivesUp(l: Link, n: nat)
    requires !l.lost
    ensures var r := RunAsWritten(l, Flaps(n));
      !r.lost && r.reconnects == l.reconnects + n && (n > 0 ==> r.attempts == 1)
    decreases n
  {
    if n > 0 {
      var l2 := StepAsWritten(StepAsWritten(l, Connected), Disconnected);
      assert l2 == Link(1, l.reconnects + 1, false);
      assert Flaps(n)[2..] == Flaps(n - 1);
      assert RunAsWritten(l, Flaps(n)) == RunAsWritten(l2, Flaps(n - 1));
      AsWrittenNeverGivesUp(l2, n - 1);
    }
  }

  /** The concrete case: four drops in a row from a fresh panel give four
      reconnections, more than the limit of three. */
  lemma FourDropsAsWritten()
    ensures var r := RunAsWritten(Link(0, 0, false), Flaps(4));
      !r.lost && r.reconnects == 4 > MaxReconnectAttempts
  {
    AsWrittenNeverGivesUp(Link(0, 0, false), 4);
  }

  /** Corrected, a link that delivers nothing is reconnected at most three
      times in a row: the reconnections scheduled never exceed what the
      counter has left. */
  lemma {:induction false} CorrectedBounded(l: Link, es: seq<LinkEvent>)
    requires l.attempts <= MaxReconnectAttempts
    requires forall i :: 0 <= i < |es| ==> es[i] != Delivered
    ensures var r := RunCorrected(l, es);
      r.attempts <= MaxReconnectAttempts && r.reconnects - l.reconnects == r.attempts - l.attempts
    decreases |es|
  {
    if |es| > 0 {
      CorrectedBounded(StepCorrected(l, es[0]), es[1..]);
    }
  }

  /** And the fourth drop in a row gives up. */
  lemma FourDropsCorrected()
    ensures var r := RunCorrected(Link(0, 0, false), Flaps(4));
      r.lost && r.reconnects == MaxReconnectAttempts
  {
    var es := Flaps(4);
    assert es == [Connected, Disconnected, Connected, Disconnected, Connected, Disconnected, Connected, Disconnected];
  }
}
