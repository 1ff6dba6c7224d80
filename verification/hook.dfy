/** The in-page hook around the correlator: its registry of live stores,
    the requests the panel sends it (`GET_STATE`, `SET_FILTER`,
    `SET_VALUE`), the state snapshot it posts back, the edit it applies
    to a live store, and the flush of its action queue. */
module PageHook {
  import opened Wrappers
  import opened Assoc
  import opened Text
  import opened Values
  import opened Paths
  import opened Edit
  import opened Correlator

  /** The page as the hook sees it: the correlation state, the live
      objects by identity, and the queue of actions waiting for a flush. */
  datatype Page = Page(hook: Hook, heap: map<nat, Value>, queue: seq<Value>)

  /** The current contents of a live object. */
  function Deref(heap: map<nat, Value>, t: Target): Value
  {
    if t.ref in heap then heap[t.ref] else Undef
  }

  /** A request from the panel, or a call into the hook's public API.
      `SetFilter(None)` carries `null`. */
  datatype Message =
    | GetState
    | SetFilter(stores: Option<seq<string>>)
    | SetValue(storeName: string, path: string, value: string)
    | Register(name: string, store: Target)
    | EditingTimeout
    | Unrelated

  /** What the hook posts to the page window for the panel. */
  datatype Post = StateUpdate(state: Value) | ActionPost(action: Value)

  /** Each registered store as its plain form, in registration order. */
  function PlainStores(stores: seq<Entry<Target>>, heap: map<nat, Value>, plain: Value -> Value)
    : (r: seq<Entry<Value>>)
    ensures Keys(r) == Keys(stores)
    ensures forall k :: Lookup(stores, k).Some? ==>
      Lookup(r, k) == Some(plain(Deref(heap, Lookup(stores, k).value)))
  {
    if |stores| == 0 then []
    else
      var r := [Entry(stores[0].key, plain(Deref(heap, stores[0].val)))] + PlainStores(stores[1..], heap, plain);
      KeysCons(stores);
      KeysCons(r);
      assert r[1..] == PlainStores(stores[1..], heap, plain);
      r
  }

  /** `sendState`: every registered store converted by `plain` (the
      library's `toJS`), gathered in one object, and sent through a JSON
      round trip. */
  function Snapshot(p: Page, plain: Value -> Value): Value
  {
    Clone(Obj(PlainStores(p.hook.stores, p.heap, plain)))
  }

  /** The snapshot holds exactly the registered stores whose plain form
      stringifies to something, each as its cloned plain form. */
  lemma SnapshotLookup(p: Page, plain: Value -> Value, k: string)
    requires UniqueKeys(p.hook.stores)
    ensures Snapshot(p, plain).Obj?
    ensures Lookup(Snapshot(p, plain).fields, k) ==
      match Lookup(p.hook.stores, k)
      case None => None
      case Some(t) =>
        var v := plain(Deref(p.heap, t));
        if ToJson(v).Some? then Some(Clone(v)) else None
  {
    var fields := PlainStores(p.hook.stores, p.heap, plain);
    CloneObj(fields);
    CloneFieldsLookup(fields, k);
  }

  /** `setValue`: nothing happens for an unknown store, or one whose
      registered value is falsy. Otherwise the hook first records the edited path (so that the mutation echoes of
      its own write are dropped), then applies the edit to the live store;
      an aborted or failed edit leaves the store as it was. */
  function ApplySetValue(p: Page, storeName: string, path: string, raw: string,
                         parseNumber: string -> Option<int>): (r: Page)
    ensures r.queue == p.queue
    ensures Lookup(p.hook.stores, storeName).None? ==> r == p
    ensures Lookup(p.hook.stores, storeName).Some? && !Truthy(Deref(p.heap, Lookup(p.hook.stores, storeName).value)) ==>
      r == p
    ensures Lookup(p.hook.stores, storeName).Some? && Truthy(Deref(p.heap, Lookup(p.hook.stores, storeName).value)) ==>
      && r.hook == p.hook.(editingPath := storeName + "." + path)
      && (var t := Lookup(p.hook.stores, storeName).value;
          !EditStore(Deref(p.heap, t), storeName, path, raw, parseNumber).Written? ==> r.heap == p.heap)
  {
    match Lookup(p.hook.stores, storeName)
    case None => p
    case Some(t) =>
      if !Truthy(Deref(p.heap, t)) then p else
      var p1 := p.(hook := p.hook.(editingPath := storeName + "." + path));
      match EditStore(Deref(p.heap, t), storeName, path, raw, parseNumber)
      case Written(root) => p1.(heap := p.heap[t.ref := root])
      case _ => p1
  }

  /** The message listener, plus the `inject` registration call. */
  function Handle(p: Page, m: Message, plain: Value -> Value, parseNumber: string -> Option<int>)
    : (r: (Page, seq<Post>))
    ensures r.0.queue == p.queue
    ensures r.1 != [] ==> m.GetState?
    ensures !m.SetValue? ==> r.0.heap == p.heap
  {
    match m
    case GetState => (p, [StateUpdate(Snapshot(p, plain))])
    case SetFilter(f) => (p.(hook := p.hook.(filter := f)), [])
    case SetValue(storeName, path, value) => (ApplySetValue(p, storeName, path, value, parseNumber), [])
    case Register(name, t) => (p.(hook := p.hook.(stores := Update(p.hook.stores, name, t))), [])
    case EditingTimeout => (p.(hook := p.hook.(editingPath := "")), [])
    case Unrelated => (p, [])
  }

  /** After `SET_FILTER` with a list, a mutation of a tracked store that is
      not suppressed, made while an action is open, is filed exactly when
      its store is on the list; the list replaces whatever filter was set
      before. */
  lemma FilterGovernsFiling(p: Page, names: seq<string>, e: Event, policy: Refresh, toJS: Value -> Value,
                            plain: Value -> Value, parseNumber: string -> Option<int>)
    ensures var h := Handle(p, SetFilter(Some(names)), plain, parseNumber).0.hook;
      var store := ChangeStoreName(e.debugObjectName, e.target);
      !Suppressed(h, e) && Tracked(store) && |h.stack| > 0 ==>
        (Mutate(h, e, policy, toJS).0.stack != h.stack <==> |names| > 0 && store in names)
  {
    var h := Handle(p, SetFilter(Some(names)), plain, parseNumber).0.hook;
    MutateStack(h, e, policy, toJS);
    var store := ChangeStoreName(e.debugObjectName, e.target);
    if !Suppressed(h, e) && Tracked(store) && |h.stack| > 0 && IsFiltered(h.filter, store) {
      var r := Mutate(h, e, policy, toJS).0.stack;
      assert |Top(r).changes| == |Top(h.stack).changes| + 1;
    }
  }

  /** A `SET_VALUE` for a registered store records the edited path, and
      any later mutation whose property name occurs in it is dropped
      whole, whatever store it belongs to. */
  lemma EditSuppressesSubstrings(p: Page, storeName: string, path: string, raw: string,
                                 parseNumber: string -> Option<int>, e: Event, policy: Refresh,
                                 toJS: Value -> Value)
    requires Lookup(p.hook.stores, storeName).Some?
    requires Truthy(Deref(p.heap, Lookup(p.hook.stores, storeName).value))
    requires e.name != "" && Contains(storeName + "." + path, e.name)
    ensures var h := ApplySetValue(p, storeName, path, raw, parseNumber).hook;
      h.editingPath == storeName + "." + path && Mutate(h, e, policy, toJS) == (h, [])
  {
    var h := ApplySetValue(p, storeName, path, raw, parseNumber).hook;
    assert h.editingPath == storeName + "." + path;
    MutateStack(h, e, policy, toJS);
  }

  /** In particular the update the edit itself causes, which carries one
      of the path's property names, is not recorded as a change. */
  lemma EditEchoDropped(p: Page, storeName: string, path: string, raw: string,
                        parseNumber: string -> Option<int>, e: Event, policy: Refresh,
                        toJS: Value -> Value)
    requires Lookup(p.hook.stores, storeName).Some?
    requires Truthy(Deref(p.heap, Lookup(p.hook.stores, storeName).value))
    requires Key(e.name) in ParsePath(path)
    ensures var h := ApplySetValue(p, storeName, path, raw, parseNumber).hook;
      Mutate(h, e, policy, toJS) == (h, [])
  {
    ParsedNamesOccur(path);
    var i :| 0 <= i < |ParsePath(path)| && ParsePath(path)[i] == Key(e.name);
    assert Contains(path, e.name);
    assert e.name != "";
    ContainsSuffix(storeName + ".", path, e.name);
    EditSuppressesSubstrings(p, storeName, path, raw, parseNumber, e, policy, toJS);
  }

  /** A `SET_VALUE` for an unknown store changes nothing at all. */
  lemma SetValueUnknownStore(p: Page, storeName: string, path: string, raw: string,
                             plain: Value -> Value, parseNumber: string -> Option<int>)
    requires !Has(p.hook.stores, storeName)
    ensures Handle(p, SetValue(storeName, path, raw), plain, parseNumber) == (p, [])
  {
  }

  /** A `SET_VALUE` that reaches its target writes the coerced text there
      (when the target holds that property) and touches no other live
      object. */
  lemma SetValueWrites(p: Page, storeName: string, path: string, raw: string,
                       parseNumber: string -> Option<int>)
    requires Lookup(p.hook.stores, storeName).Some?
    requires var t := Lookup(p.hook.stores, storeName).value;
      EditStore(Deref(p.heap, t), storeName, path, raw, parseNumber).Written?
    requires var t := Lookup(p.hook.stores, storeName).value;
      var w := Walked(storeName, ParsePath(path));
      Holds(Read(Deref(p.heap, t), w.0), w.1)
    ensures var t := Lookup(p.hook.stores, storeName).value;
      var w := Walked(storeName, ParsePath(path));
      var q := ApplySetValue(p, storeName, path, raw, parseNumber);
      && Read(Deref(q.heap, t), w.0 + [w.1])
         == Landed(Read(Deref(p.heap, t), w.0), w.1, Coerce(Read(Deref(p.heap, t), w.0 + [w.1]), raw, parseNumber))
      && (forall ref :: ref in p.heap && ref != t.ref ==> ref in q.heap && q.heap[ref] == p.heap[ref])
  {
    var t := Lookup(p.hook.stores, storeName).value;
    var w := Walked(storeName, ParsePath(path));
    var root := EditStore(Deref(p.heap, t), storeName, path, raw, parseNumber).root;
    SetValueHeap(p, storeName, path, raw, parseNumber, t, root);
    WriteReadBack(Deref(p.heap, t), w.0, w.1, raw, parseNumber);
  }

  /** A successful edit replaces exactly the edited store's live object. */
  lemma SetValueHeap(p: Page, storeName: string, path: string, raw: string,
                     parseNumber: string -> Option<int>, t: Target, root: Value)
    requires Lookup(p.hook.stores, storeName) == Some(t)
    requires EditStore(Deref(p.heap, t), storeName, path, raw, parseNumber) == Written(root)
    ensures ApplySetValue(p, storeName, path, raw, parseNumber).heap == p.heap[t.ref := root]
  {
    var w := Walked(storeName, ParsePath(path));
    WrittenThroughObject(Deref(p.heap, t), w.0, w.1, raw, parseNumber);
  }

  /** The most actions one flush sends. */
  const FlushLimit := 50

  /** `flushActionsDebounced` once its timer fires: with a non-empty
      queue, the newest (at most 50) queued actions are posted in queue
      order, the queue is emptied and a snapshot follows; with an empty
      queue nothing happens. */
  function Flush(p: Page, plain: Value -> Value): (r: (Page, seq<Post>))
    ensures r.0.hook == p.hook && r.0.heap == p.heap
  {
    if |p.queue| == 0 then (p, [])
    else
      var from := if |p.queue| > FlushLimit then |p.queue| - FlushLimit else 0;
      var sent := seq(|p.queue| - from, i requires 0 <= i < |p.queue| - from => ActionPost(p.queue[from + i]));
      (p.(queue := []), sent + [StateUpdate(Snapshot(p, plain))])
  }

  /** What a flush sends, against the queue it started from. */
  lemma FlushSendsNewest(p: Page, plain: Value -> Value)
    ensures var r := Flush(p, plain);
      && r.0.queue == []
      && (|p.queue| == 0 <==> r.1 == [])
      && (|p.queue| > 0 ==>
            var n := if |p.queue| < FlushLimit then |p.queue| else FlushLimit;
            && |r.1| == n + 1
            && r.1[n] == StateUpdate(Snapshot(p, plain))
            && forall i :: 0 <= i < n ==> r.1[i] == ActionPost(p.queue[|p.queue| - n + i]))
  {
  }

  /** The registry never holds a store name twice. */
  lemma HandleKeepsRegistry(p: Page, m: Message, plain: Value -> Value, parseNumber: string -> Option<int>)
    requires UniqueKeys(p.hook.stores)
    ensures UniqueKeys(Handle(p, m, plain, parseNumber).0.hook.stores)
  {
    if m.Register? {
      UpdateKeepsUnique(p.hook.stores, m.name, m.store);
    }
  }
}
