/** The spy-event correlator of the in-page hook: the callback it gives to
    `mobx.spy`. It pairs every `report-end` with the event that opened it
    by counting depth, keeps a stack of the actions that are open, files
    each observable mutation of a tracked store under the innermost open
    action, and emits an action when it closes. Its outputs are emitted
    actions and requests for a (debounced) state snapshot. */
module Correlator {
  import opened Wrappers
  import opened Assoc
  import opened Text
  import opened Values

  /** A live object a spy event refers to: an identity, and the name of
      its constructor (`None` when it has no constructor). */
  datatype Target = Target(ref: nat, ctor: Option<string>)

  datatype EventKind = ActionEvent | UpdateEvent | AddEvent | DeleteEvent | ReportEnd | OtherEvent

  predicate IsMutation(k: EventKind)
  {
    k.UpdateEvent? || k.AddEvent? || k.DeleteEvent?
  }

  /** The `type` text of a mutation event. */
  function KindName(k: EventKind): string
  {
    match k
    case UpdateEvent => "update"
    case AddEvent => "add"
    case DeleteEvent => "delete"
    case ActionEvent => "action"
    case ReportEnd => "report-end"
    case OtherEvent => "other"
  }

  /** One spy event. A missing text field is `""`: the hook only tests
      those fields for truthiness or reads them as `x || ''`. `now` is the
      clock reading the hook takes while handling the event. */
  datatype Event = Event(
    kind: EventKind,
    reportStart: bool,
    name: string,
    target: Option<Target>,
    debugObjectName: string,
    observableKind: string,
    oldValue: Value,
    newValue: Value,
    arguments: seq<Value>,
    now: int)

  /** One recorded mutation, as the panel receives it. */
  datatype Change = Change(
    kind: string,
    name: string,
    store: string,
    observableKind: string,
    oldValue: Value,
    newValue: Value)

  /** An open or emitted action. `count` is the value of the action
      counter the action took; `id` is written from it. */
  datatype Action = Action(
    id: string,
    count: nat,
    name: string,
    storeName: string,
    timestamp: int,
    changes: seq<Change>,
    isFiltered: bool,
    startDepth: int,
    arguments: seq<Value>)

  /** The hook's correlation state. `editingPath` is `""` when no edit is
      in progress; `filter` is `None` for `null`. */
  datatype Hook = Hook(
    depth: int,
    stack: seq<Action>,
    stores: seq<Entry<Target>>,
    filter: Option<seq<string>>,
    editingPath: string,
    actionCount: nat)

  const Fresh := Hook(0, [], [], None, "", 0)

  /** Where a tracked mutation asks for a state snapshot: as soon as its
      store is registered (the module build of the hook), or only for a
      filtered store after its change is filed (the plain script). */
  datatype Refresh = RefreshOnRegister | RefreshAfterAttach

  datatype Output = Emit(action: Action) | ScheduleState

  /** `filteredStores && filteredStores.length > 0 && filteredStores.includes(name)`. */
  predicate IsFiltered(filter: Option<seq<string>>, name: string)
  {
    filter.Some? && |filter.value| > 0 && name in filter.value
  }

  /** The action id: the clock reading, a dash, and the counter. */
  function IdText(now: int, count: nat): string
  {
    IntToDecimal(now) + "-" + IntToDecimal(count)
  }

  /** The store an action belongs to: the part of its name before the
      first `@` when that part is non-empty, else its object's constructor
      name (`Store` for an anonymous one), else `Unknown`. */
  function ActionStoreName(name: string, target: Option<Target>): (r: string)
    ensures '@' in name && name[0] != '@' ==> r + "@" <= name && '@' !in r && r != ""
    ensures !('@' in name && name[0] != '@') ==>
      r == match target
        case Some(Target(_, Some(c))) => if c == "" then "Store" else c
        case _ => "Unknown"
  {
    var prefix := Before(name, '@');
    // `name.indexOf('@') > 0`
    if '@' in name && name[0] != '@' then
      assert prefix + "@" == name[..|prefix| + 1];
      prefix
    else
      match target
      case Some(Target(_, Some(c))) => if c == "" then "Store" else c
      case _ => "Unknown"
  }

  /** The store a mutation belongs to: the part of `debugObjectName`
      before the first `@` when non-empty, else its object's constructor
      name; `""` stands for none. */
  function ChangeStoreName(debugObjectName: string, target: Option<Target>): (r: string)
    ensures r != "" && r != Before(debugObjectName, '@') ==>
      Before(debugObjectName, '@') == "" && target.Some? && target.value.ctor == Some(r)
    ensures Before(debugObjectName, '@') != "" ==> r + "@" <= debugObjectName + "@" && '@' !in r
  {
    var prefix := Before(debugObjectName, '@');
    if prefix != "" then
      assert prefix + "@" <= debugObjectName + "@" by {
        if |prefix| < |debugObjectName| {
          assert (debugObjectName + "@")[..|prefix| + 1] == debugObjectName[..|prefix| + 1];
        } else {
          assert prefix == debugObjectName;
        }
      }
      prefix
    else
      match target
      case Some(Target(_, Some(c))) => c
      case _ => ""
  }

  /** Store names the hook follows: not missing, not `Object`, not `Array`. */
  predicate Tracked(store: string)
  {
    store != "" && store != "Object" && store != "Array"
  }

  function Top(stack: seq<Action>): Action
    requires |stack| > 0
  {
    stack[|stack| - 1]
  }

  /** An action is sent when its store is filtered or it recorded a change. */
  predicate ShouldSend(a: Action)
  {
    a.isFiltered || |a.changes| > 0
  }

  /** The change record of a mutation: values go through `toJS` and a
      JSON round trip. */
  function ChangeOf(e: Event, store: string, toJS: Value -> Value): Change
  {
    Change(KindName(e.kind), e.name, store, e.observableKind, Clone(toJS(e.oldValue)), Clone(toJS(e.newValue)))
  }

  /** Files `c` under the innermost open action. */
  function Attach(stack: seq<Action>, c: Change): (r: seq<Action>)
    requires |stack| > 0
    ensures |r| == |stack| && r[..|r| - 1] == stack[..|stack| - 1]
    ensures Top(r) == Top(stack).(changes := Top(stack).changes + [c])
  {
    stack[..|stack| - 1] + [Top(stack).(changes := Top(stack).changes + [c])]
  }

  /** Filing a change alters only the changes of the innermost action. */
  lemma AttachMarks(stack: seq<Action>, c: Change)
    requires |stack| > 0
    ensures forall j :: 0 <= j < |stack| ==>
      Attach(stack, c)[j] == stack[j].(changes := Attach(stack, c)[j].changes)
  {
    var r := Attach(stack, c);
    forall j | 0 <= j < |stack| ensures r[j] == stack[j].(changes := r[j].changes) {
      if j < |stack| - 1 {
        assert r[j] == r[..|r| - 1][j];
      }
    }
  }

  /** `JSON.parse(JSON.stringify(args))` of the converted arguments: each
      keeps its JSON form, and one with none (`undefined`, a function)
      becomes `null`. */
  function CopyArguments(args: seq<Value>, toJS: Value -> Value): (r: seq<Value>)
    ensures |r| == |args|
    ensures forall i :: 0 <= i < |args| ==> ToJson(r[i]) == Some(ToJson(toJS(args[i])).GetOr(JNull))
  {
    seq(|args|, i requires 0 <= i < |args| => CloneItem(toJS(args[i])))
  }

  /** An action start (depth already raised): the store is registered
      when there is an object and a known name, the counter advances, and
      a new action with no changes opens at the depth before the event. */
  function StartAction(h: Hook, e: Event, toJS: Value -> Value): (r: Hook)
    ensures |r.stack| == |h.stack| + 1 && r.stack[..|h.stack|] == h.stack
    ensures r.actionCount == h.actionCount + 1
    ensures var a := Top(r.stack);
      && a.count == r.actionCount && a.timestamp == e.now && a.id == IdText(e.now, a.count)
      && a.startDepth == h.depth - 1 && a.changes == []
      && a.storeName == ActionStoreName(e.name, e.target)
      && (a.isFiltered <==> IsFiltered(h.filter, a.storeName))
      && |a.arguments| == |e.arguments|
    ensures forall i :: 0 <= i < |e.arguments| ==>
      ToJson(Top(r.stack).arguments[i]) == Some(ToJson(toJS(e.arguments[i])).GetOr(JNull))
    ensures r.depth == h.depth && r.filter == h.filter && r.editingPath == h.editingPath
    ensures forall k :: Lookup(r.stores, k) != Lookup(h.stores, k) ==>
      e.target.Some? && k == ActionStoreName(e.name, e.target) && k != "Unknown"
        && Lookup(r.stores, k) == Some(e.target.value)
  {
    var store := ActionStoreName(e.name, e.target);
    var stores := if e.target.Some? && store != "Unknown" then Update(h.stores, store, e.target.value) else h.stores;
    var count := h.actionCount + 1;
    var args := CopyArguments(e.arguments, toJS);
    var a := Action(IdText(e.now, count), count, e.name, store, e.now, [], IsFiltered(h.filter, store), h.depth - 1, args);
    var r := h.(stores := stores, actionCount := count, stack := h.stack + [a]);
    assert r.stack[..|h.stack|] == h.stack;
    r
  }

  /** A `report-end` (depth not yet lowered): the depth falls by one, and
      the innermost open action closes when it started at the lowered
      depth; a closed action is emitted when it should be sent and
      otherwise vanishes. */
  function EndReport(h: Hook): (r: (Hook, seq<Output>))
    ensures r.0.depth == h.depth - 1
    ensures r.0.stores == h.stores && r.0.filter == h.filter && r.0.actionCount == h.actionCount
    ensures r.0.editingPath == h.editingPath
    ensures |h.stack| > 0 && Top(h.stack).startDepth == h.depth - 1 ==>
      && r.0.stack == h.stack[..|h.stack| - 1]
      && (r.1 == [Emit(Top(h.stack))] <==> ShouldSend(Top(h.stack)))
      && (r.1 == [] <==> !ShouldSend(Top(h.stack)))
    ensures !(|h.stack| > 0 && Top(h.stack).startDepth == h.depth - 1) ==> r.0.stack == h.stack && r.1 == []
  {
    var d := h.depth - 1;
    if |h.stack| > 0 && Top(h.stack).startDepth == d then
      var top := Top(h.stack);
      (h.(depth := d, stack := h.stack[..|h.stack| - 1]), if ShouldSend(top) then [Emit(top)] else [])
    else
      (h.(depth := d), [])
  }

  /** A mutation the hook ignores because an edit of its own is in
      progress: the property name occurs anywhere in the edited path. */
  predicate Suppressed(h: Hook, e: Event)
  {
    h.editingPath != "" && e.name != "" && Contains(h.editingPath, e.name)
  }

  /** A mutation start (depth already raised). It is dropped outright
      when it is suppressed or when its store is not tracked. Otherwise
      the store is registered (when there is an object), and, for a
      filtered store with an open action, the change is filed under the
      innermost one. */
  function Mutate(h: Hook, e: Event, policy: Refresh, toJS: Value -> Value): (r: (Hook, seq<Output>))
    ensures r.0.depth == h.depth && r.0.filter == h.filter && r.0.actionCount == h.actionCount
    ensures r.0.editingPath == h.editingPath
    ensures forall o :: o in r.1 ==> o == ScheduleState
  {
    if Suppressed(h, e) then (h, [])
    else
      var store := ChangeStoreName(e.debugObjectName, e.target);
      if !Tracked(store) then (h, [])
      else
        var h1 := if e.target.Some? then h.(stores := Update(h.stores, store, e.target.value)) else h;
        var early := if policy == RefreshOnRegister then [ScheduleState] else [];
        if !IsFiltered(h1.filter, store) then (h1, early)
        else
          var h2 := if |h1.stack| > 0 then h1.(stack := Attach(h1.stack, ChangeOf(e, store, toJS))) else h1;
          (h2, early + (if policy == RefreshAfterAttach then [ScheduleState] else []))
  }

  /** A suppressed mutation, or one of an untracked store, changes
      nothing and outputs nothing. A mutation of a filtered, tracked store
      files exactly one change under the innermost open action; every
      other mutation leaves the open actions as they were. */
  lemma MutateStack(h: Hook, e: Event, policy: Refresh, toJS: Value -> Value)
    ensures var r := Mutate(h, e, policy, toJS);
      Suppressed(h, e) || !Tracked(ChangeStoreName(e.debugObjectName, e.target)) ==> r == (h, [])
    ensures var r := Mutate(h, e, policy, toJS);
      var store := ChangeStoreName(e.debugObjectName, e.target);
      if !Suppressed(h, e) && Tracked(store) && IsFiltered(h.filter, store) && |h.stack| > 0
      then r.0.stack == Attach(h.stack, ChangeOf(e, store, toJS))
      else r.0.stack == h.stack
  {
  }

  /** The registry changes at most at the mutation's own store name, and
      only for a mutation that is neither suppressed nor untracked and
      that comes with an object, which then becomes the entry. */
  lemma MutateRegistry(h: Hook, e: Event, policy: Refresh, toJS: Value -> Value)
    ensures var r := Mutate(h, e, policy, toJS);
      forall k :: Lookup(r.0.stores, k) != Lookup(h.stores, k) ==>
        !Suppressed(h, e) && e.target.Some? && k == ChangeStoreName(e.debugObjectName, e.target) && Tracked(k)
          && Lookup(r.0.stores, k) == Some(e.target.value)
  {
  }

  /** When a mutation asks for a state snapshot: for any mutation of a
      tracked store that is not suppressed (module build), or only for a
      filtered one (plain script). */
  lemma MutateRefresh(h: Hook, e: Event, policy: Refresh, toJS: Value -> Value)
    ensures var r := Mutate(h, e, policy, toJS);
      var store := ChangeStoreName(e.debugObjectName, e.target);
      && (policy == RefreshOnRegister ==> (ScheduleState in r.1 <==> !Suppressed(h, e) && Tracked(store)))
      && (policy == RefreshAfterAttach ==>
            (ScheduleState in r.1 <==> !Suppressed(h, e) && Tracked(store) && IsFiltered(h.filter, store)))
  {
  }

  /** The spy callback: every event that opens a report raises the depth
      first, then the event is handled by its type. */
  function Step(h: Hook, e: Event, policy: Refresh, toJS: Value -> Value): (r: (Hook, seq<Output>))
    ensures r.0.depth == h.depth + (if e.reportStart then 1 else 0) - (if e.kind == ReportEnd then 1 else 0)
    ensures e.kind != ActionEvent || !e.reportStart ==> r.0.actionCount == h.actionCount
  {
    var h1 := if e.reportStart then h.(depth := h.depth + 1) else h;
    if e.kind == ActionEvent && e.reportStart then (StartAction(h1, e, toJS), [])
    else if e.kind == ReportEnd then EndReport(h1)
    else if IsMutation(e.kind) && e.reportStart then Mutate(h1, e, policy, toJS)
    else (h1, [])
  }

  lemma StepStart(h: Hook, e: Event, policy: Refresh, toJS: Value -> Value)
    requires e.kind == ActionEvent && e.reportStart
    ensures Step(h, e, policy, toJS) == (StartAction(h.(depth := h.depth + 1), e, toJS), [])
  {
  }

  lemma StepEnd(h: Hook, e: Event, policy: Refresh, toJS: Value -> Value)
    requires e.kind == ReportEnd
    ensures Step(h, e, policy, toJS) == EndReport(if e.reportStart then h.(depth := h.depth + 1) else h)
  {
  }

  lemma StepMutate(h: Hook, e: Event, policy: Refresh, toJS: Value -> Value)
    requires IsMutation(e.kind) && e.reportStart
    ensures Step(h, e, policy, toJS) == Mutate(h.(depth := h.depth + 1), e, policy, toJS)
  {
    assert e.kind != ActionEvent && e.kind != ReportEnd;
  }

  lemma StepOther(h: Hook, e: Event, policy: Refresh, toJS: Value -> Value)
    requires !(e.kind == ActionEvent && e.reportStart) && e.kind != ReportEnd && !(IsMutation(e.kind) && e.reportStart)
    ensures Step(h, e, policy, toJS) == (if e.reportStart then h.(depth := h.depth + 1) else h, [])
  {
  }

  /** The hook after a sequence of events, and everything it output. */
  function Run(h: Hook, es: seq<Event>, policy: Refresh, toJS: Value -> Value): (r: (Hook, seq<Output>))
    decreases |es|
  {
    if |es| == 0 then (h, [])
    else
      var s := Step(h, es[0], policy, toJS);
      var rest := Run(s.0, es[1..], policy, toJS);
      (rest.0, s.1 + rest.1)
  }

  /** The action carries the id written from its clock reading and counter. */
  predicate IdOf(a: Action)
  {
    a.id == IdText(a.timestamp, a.count)
  }

  /** What every reachable hook satisfies: open actions started at
      strictly increasing depths, all below the current depth, took
      strictly increasing counter values no larger than the counter, and
      carry the id written from their clock reading and counter. */
  predicate Inv(h: Hook)
  {
    && (forall i, j :: 0 <= i < j < |h.stack| ==>
          h.stack[i].startDepth < h.stack[j].startDepth && h.stack[i].count < h.stack[j].count)
    && (forall i :: 0 <= i < |h.stack| ==>
          && h.stack[i].startDepth < h.depth
          && 0 < h.stack[i].count <= h.actionCount
          && IdOf(h.stack[i]))
  }

  lemma StartInv(h: Hook, e: Event, toJS: Value -> Value)
    requires Inv(h)
    ensures Inv(StartAction(h.(depth := h.depth + 1), e, toJS))
  {
    var r := StartAction(h.(depth := h.depth + 1), e, toJS);
    var n := |h.stack|;
    forall i | 0 <= i < n ensures r.stack[i] == h.stack[i] {
      assert r.stack[..n][i] == r.stack[i];
    }
    PushInv(h, r);
  }

  /** Opening an action above all open ones, with the next counter value,
      keeps the invariant. */
  lemma PushInv(h: Hook, r: Hook)
    requires Inv(h)
    requires |r.stack| == |h.stack| + 1 && forall i :: 0 <= i < |h.stack| ==> r.stack[i] == h.stack[i]
    requires r.depth == h.depth + 1 && r.actionCount == h.actionCount + 1
    requires Top(r.stack).count == r.actionCount && Top(r.stack).startDepth == h.depth && IdOf(Top(r.stack))
    ensures Inv(r)
  {
    var n := |h.stack|;
    forall i, j | 0 <= i < j < |r.stack|
      ensures r.stack[i].startDepth < r.stack[j].startDepth && r.stack[i].count < r.stack[j].count
    {
      assert r.stack[i] == h.stack[i];
      if j < n {
        assert r.stack[j] == h.stack[j];
      } else {
        assert r.stack[j] == Top(r.stack);
      }
    }
    forall i | 0 <= i < |r.stack|
      ensures r.stack[i].startDepth < r.depth && 0 < r.stack[i].count <= r.actionCount && IdOf(r.stack[i])
    {
      if i < n {
        assert r.stack[i] == h.stack[i];
      } else {
        assert r.stack[i] == Top(r.stack);
      }
    }
  }

  lemma EndInv(h: Hook)
    requires Inv(h)
    ensures Inv(EndReport(h).0)
  {
    var r := EndReport(h).0;
    assert forall i :: 0 <= i < |r.stack| ==> r.stack[i] == h.stack[i] && r.stack[i].startDepth < r.depth by {
      EndBelow(h);
    }
    PrefixInv(h, r);
  }

  /** After a report end every remaining open action started below the
      lowered depth. */
  lemma EndBelow(h: Hook)
    requires Inv(h)
    ensures var r := EndReport(h).0;
      forall i :: 0 <= i < |r.stack| ==> r.stack[i] == h.stack[i] && r.stack[i].startDepth < r.depth
  {
    var r := EndReport(h).0;
    var n := |h.stack|;
    if n > 0 && Top(h.stack).startDepth == h.depth - 1 {
      assert r.stack == h.stack[..n - 1];
      StackBelow(h.stack, r.depth, n - 1);
    } else {
      assert r.stack == h.stack;
      StackBelow(h.stack, r.depth, n);
    }
  }

  /** Start depths increase along the stack, so the first `k` open
      actions are below whatever the `k`-th is below. */
  lemma StackBelow(stack: seq<Action>, d: int, k: nat)
    requires k <= |stack|
    requires forall i, j :: 0 <= i < j < |stack| ==> stack[i].startDepth < stack[j].startDepth
    requires k > 0 ==> stack[k - 1].startDepth < d
    ensures forall i :: 0 <= i < k ==> stack[i].startDepth < d
  {
  }

  /** Keeping a prefix of the open actions, all below the new depth, keeps
      the invariant. */
  lemma PrefixInv(h: Hook, r: Hook)
    requires Inv(h) && r.actionCount == h.actionCount
    requires |r.stack| <= |h.stack| && forall i :: 0 <= i < |r.stack| ==> r.stack[i] == h.stack[i]
    requires forall i :: 0 <= i < |r.stack| ==> r.stack[i].startDepth < r.depth
    ensures Inv(r)
  {
  }

  lemma InvKeepsMarks(h: Hook, h': Hook)
    requires Inv(h)
    requires h'.depth == h.depth && h'.actionCount == h.actionCount && |h'.stack| == |h.stack|
    requires forall j :: 0 <= j < |h.stack| ==>
      h'.stack[j] == h.stack[j].(changes := h'.stack[j].changes)
    ensures Inv(h')
  {
  }

  lemma MutateInv(h: Hook, e: Event, policy: Refresh, toJS: Value -> Value)
    requires Inv(h)
    ensures Inv(Mutate(h, e, policy, toJS).0)
  {
    MutateStack(h, e, policy, toJS);
    var r := Mutate(h, e, policy, toJS).0;
    if r.stack != h.stack {
      AttachMarks(h.stack, ChangeOf(e, ChangeStoreName(e.debugObjectName, e.target), toJS));
    }
    InvKeepsMarks(h, r);
  }

  lemma RaiseInv(h: Hook)
    requires Inv(h)
    ensures Inv(h.(depth := h.depth + 1))
  {
  }

  lemma StepInv(h: Hook, e: Event, policy: Refresh, toJS: Value -> Value)
    requires Inv(h)
    ensures Inv(Step(h, e, policy, toJS).0)
  {
    var h1 := if e.reportStart then h.(depth := h.depth + 1) else h;
    if e.reportStart {
      RaiseInv(h);
    }
    if e.kind == ActionEvent && e.reportStart {
      StartInv(h, e, toJS);
      StepStart(h, e, policy, toJS);
    } else if e.kind == ReportEnd {
      EndInv(h1);
      StepEnd(h, e, policy, toJS);
    } else if IsMutation(e.kind) && e.reportStart {
      MutateInv(h1, e, policy, toJS);
      StepMutate(h, e, policy, toJS);
    } else {
      StepOther(h, e, policy, toJS);
    }
  }

  lemma {:induction false} RunInv(h: Hook, es: seq<Event>, policy: Refresh, toJS: Value -> Value)
    requires Inv(h)
    ensures Inv(Run(h, es, policy, toJS).0)
    decreases |es|
  {
    if |es| > 0 {
      StepInv(h, es[0], policy, toJS);
      RunInv(Step(h, es[0], policy, toJS).0, es[1..], policy, toJS);
    }
  }

  /** The actions among the outputs, in order. */
  function Emitted(outs: seq<Output>): (r: seq<Action>)
    ensures |r| <= |outs|
    ensures (forall o :: o in outs ==> o == ScheduleState) ==> r == []
  {
    if |outs| == 0 then []
    else
      assert outs[0] in outs;
      assert forall o :: o in outs[1..] ==> o in outs;
      (if outs[0].Emit? then [outs[0].action] else []) + Emitted(outs[1..])
  }

  lemma {:induction false} EmittedAppend(a: seq<Output>, b: seq<Output>)
    ensures Emitted(a + b) == Emitted(a) + Emitted(b)
    decreases |a|
  {
    if |a| > 0 {
      assert (a + b)[1..] == a[1..] + b;
      EmittedAppend(a[1..], b);
    } else {
      assert a + b == b;
    }
  }

  /** The id determines the counter value it was written from: the
      counter is the text after the last dash. */
  lemma IdCount(now: int, count: nat, now': int, count': nat)
    requires IdText(now, count) == IdText(now', count')
    ensures count == count'
  {
    AfterLastOf(IntToDecimal(now), '-', IntToDecimal(count));
    AfterLastOf(IntToDecimal(now'), '-', IntToDecimal(count'));
    ParseIntOfDecimal(count);
    ParseIntOfDecimal(count');
  }

  /** What the hook has sent so far, together with what it holds open:
      every action took its own counter value, no larger than the counter,
      and carries the id written from it. */
  predicate Ledger(h: Hook, sent: seq<Action>)
  {
    && Inv(h)
    && (forall i, j :: 0 <= i < j < |sent| ==> sent[i].count != sent[j].count)
    && (forall i :: 0 <= i < |sent| ==>
          0 < sent[i].count <= h.actionCount && IdOf(sent[i]))
    && (forall i, j :: 0 <= i < |sent| && 0 <= j < |h.stack| ==> sent[i].count != h.stack[j].count)
  }

  lemma StartLedger(h: Hook, e: Event, toJS: Value -> Value, sent: seq<Action>)
    requires Ledger(h, sent)
    ensures Ledger(StartAction(h.(depth := h.depth + 1), e, toJS), sent)
  {
    StartInv(h, e, toJS);
    var r := StartAction(h.(depth := h.depth + 1), e, toJS);
    assert forall i :: 0 <= i < |h.stack| ==> r.stack[i] == h.stack[i];
  }

  lemma EndLedger(h: Hook, sent: seq<Action>)
    requires Ledger(h, sent)
    ensures Ledger(EndReport(h).0, sent + Emitted(EndReport(h).1))
  {
    EndInv(h);
    EndBelow(h);
    var r := EndReport(h);
    if r.1 == [] {
      assert sent + Emitted(r.1) == sent;
      PrefixLedger(h, r.0, sent);
    } else {
      assert Emitted(r.1) == [Top(h.stack)];
      PopLedger(h, r.0, sent);
    }
  }

  /** Keeping a prefix of the open actions keeps the ledger. */
  lemma PrefixLedger(h: Hook, r: Hook, sent: seq<Action>)
    requires Ledger(h, sent) && Inv(r) && r.actionCount == h.actionCount
    requires |r.stack| <= |h.stack| && forall i :: 0 <= i < |r.stack| ==> r.stack[i] == h.stack[i]
    ensures Ledger(r, sent)
  {
  }

  /** Sending the innermost open action while closing it keeps the ledger. */
  lemma PopLedger(h: Hook, r: Hook, sent: seq<Action>)
    requires Ledger(h, sent) && Inv(r) && r.actionCount == h.actionCount
    requires |h.stack| > 0 && r.stack == h.stack[..|h.stack| - 1]
    ensures Ledger(r, sent + [Top(h.stack)])
  {
    var top := Top(h.stack);
    var n := |h.stack| - 1;
    forall i | 0 <= i < |sent| ensures sent[i].count != top.count {
      assert top == h.stack[n];
    }
    forall i, j | 0 <= i < |sent| + 1 && 0 <= j < |r.stack|
      ensures (sent + [top])[i].count != r.stack[j].count
    {
      if i == |sent| {
        assert h.stack[j].count < h.stack[n].count;
      }
    }
  }

  /** The ledger only looks at the counters, depths and ids of the open
      actions, not at the changes they recorded. */
  lemma LedgerKeepsMarks(h: Hook, h': Hook, sent: seq<Action>)
    requires Ledger(h, sent)
    requires h'.depth == h.depth && h'.actionCount == h.actionCount && |h'.stack| == |h.stack|
    requires forall j :: 0 <= j < |h.stack| ==>
      h'.stack[j] == h.stack[j].(changes := h'.stack[j].changes)
    ensures Ledger(h', sent)
  {
  }

  lemma MutateLedger(h: Hook, e: Event, policy: Refresh, toJS: Value -> Value, sent: seq<Action>)
    requires Ledger(h, sent)
    ensures Ledger(Mutate(h, e, policy, toJS).0, sent + Emitted(Mutate(h, e, policy, toJS).1))
  {
    var r := Mutate(h, e, policy, toJS);
    assert Emitted(r.1) == [];
    assert sent + Emitted(r.1) == sent;
    MutateStack(h, e, policy, toJS);
    if r.0.stack != h.stack {
      var c := ChangeOf(e, ChangeStoreName(e.debugObjectName, e.target), toJS);
      AttachMarks(h.stack, c);
    }
    LedgerKeepsMarks(h, r.0, sent);
  }

  lemma StepLedger(h: Hook, e: Event, policy: Refresh, toJS: Value -> Value, sent: seq<Action>)
    requires Ledger(h, sent)
    ensures Ledger(Step(h, e, policy, toJS).0, sent + Emitted(Step(h, e, policy, toJS).1))
  {
    var h1 := if e.reportStart then h.(depth := h.depth + 1) else h;
    if e.reportStart {
      RaiseInv(h);
    }
    assert Ledger(h1, sent);
    if e.kind == ActionEvent && e.reportStart {
      StartLedger(h, e, toJS, sent);
      StepStart(h, e, policy, toJS);
    } else if e.kind == ReportEnd {
      EndLedger(h1, sent);
      StepEnd(h, e, policy, toJS);
    } else if IsMutation(e.kind) && e.reportStart {
      MutateLedger(h1, e, policy, toJS, sent);
      StepMutate(h, e, policy, toJS);
    } else {
      StepOther(h, e, policy, toJS);
    }
  }

  lemma ConcatAssoc<T>(a: seq<T>, b: seq<T>, c: seq<T>)
    ensures (a + b) + c == a + (b + c)
  {
  }

  lemma {:induction false} RunLedger(h: Hook, es: seq<Event>, policy: Refresh, toJS: Value -> Value, sent: seq<Action>)
    requires Ledger(h, sent)
    ensures Ledger(Run(h, es, policy, toJS).0, sent + Emitted(Run(h, es, policy, toJS).1))
    decreases |es|
  {
    if |es| == 0 {
      assert sent + Emitted([]) == sent;
    } else {
      var s := Step(h, es[0], policy, toJS);
      StepLedger(h, es[0], policy, toJS, sent);
      var sent1 := sent + Emitted(s.1);
      RunLedger(s.0, es[1..], policy, toJS, sent1);
      var rest := Run(s.0, es[1..], policy, toJS);
      EmittedAppend(s.1, rest.1);
      ConcatAssoc(sent, Emitted(s.1), Emitted(rest.1));
    }
  }

  /** Actions in a ledger carry pairwise different ids. */
  lemma LedgerIds(h: Hook, sent: seq<Action>)
    requires Ledger(h, sent)
    ensures forall i, j :: 0 <= i < j < |sent| ==> sent[i].id != sent[j].id
  {
    forall i, j | 0 <= i < j < |sent| ensures sent[i].id != sent[j].id {
      if sent[i].id == sent[j].id {
        IdCount(sent[i].timestamp, sent[i].count, sent[j].timestamp, sent[j].count);
      }
    }
  }

  /** From a fresh hook, the actions sent over any event sequence carry
      pairwise different ids. */
  lemma EmittedIdsDistinct(es: seq<Event>, policy: Refresh, toJS: Value -> Value)
    ensures var sent := Emitted(Run(Fresh, es, policy, toJS).1);
      forall i, j :: 0 <= i < j < |sent| ==> sent[i].id != sent[j].id
  {
    var r := Run(Fresh, es, policy, toJS);
    RunLedger(Fresh, es, policy, toJS, []);
    assert [] + Emitted(r.1) == Emitted(r.1);
    LedgerIds(r.0, Emitted(r.1));
  }

  lemma RunCons(h: Hook, e: Event, es: seq<Event>, policy: Refresh, toJS: Value -> Value)
    ensures var s := Step(h, e, policy, toJS);
      Run(h, [e] + es, policy, toJS) == (Run(s.0, es, policy, toJS).0, s.1 + Run(s.0, es, policy, toJS).1)
  {
    assert ([e] + es)[1..] == es;
  }

  /** Two `report-end`s over one open action that started at depth 0,
      with depth 2: the first closes nothing, the second closes it. */
  lemma TwoEnds(g: Hook, end: Event, policy: Refresh, toJS: Value -> Value)
    requires end.kind == ReportEnd && !end.reportStart
    requires g.depth == 2 && |g.stack| == 1 && g.stack[0].startDepth == 0 && ShouldSend(g.stack[0])
    ensures Step(g, end, policy, toJS) == (g.(depth := 1), [])
    ensures Step(g.(depth := 1), end, policy, toJS) == (g.(depth := 0, stack := []), [Emit(g.stack[0])])
  {
    StepEnd(g, end, policy, toJS);
    StepEnd(g.(depth := 1), end, policy, toJS);
    assert Top(g.stack) == g.stack[0];
    assert g.stack[..0] == [];
  }

  lemma RunThree(h: Hook, e1: Event, e2: Event, e3: Event, policy: Refresh, toJS: Value -> Value)
    ensures var s1 := Step(h, e1, policy, toJS);
      var s2 := Step(s1.0, e2, policy, toJS);
      var s3 := Step(s2.0, e3, policy, toJS);
      Run(h, [e1, e2, e3], policy, toJS) == (s3.0, s1.1 + (s2.1 + (s3.1 + [])))
  {
    var s1 := Step(h, e1, policy, toJS);
    var s2 := Step(s1.0, e2, policy, toJS);
    RunCons(s2.0, e3, [], policy, toJS);
    RunCons(s1.0, e2, [e3], policy, toJS);
    RunCons(h, e1, [e2, e3], policy, toJS);
    assert [e1, e2, e3] == [e1] + [e2, e3];
    assert [e2, e3] == [e2] + [e3];
    assert [e3] == [e3] + [];
  }

  lemma RunFour(h: Hook, e1: Event, e2: Event, e3: Event, e4: Event, policy: Refresh, toJS: Value -> Value)
    ensures var s1 := Step(h, e1, policy, toJS);
      var s2 := Step(s1.0, e2, policy, toJS);
      var s3 := Step(s2.0, e3, policy, toJS);
      var s4 := Step(s3.0, e4, policy, toJS);
      Run(h, [e1, e2, e3, e4], policy, toJS) == (s4.0, s1.1 + (s2.1 + (s3.1 + (s4.1 + []))))
  {
    var s1 := Step(h, e1, policy, toJS);
    var s2 := Step(s1.0, e2, policy, toJS);
    var s3 := Step(s2.0, e3, policy, toJS);
    RunCons(s3.0, e4, [], policy, toJS);
    RunCons(s2.0, e3, [e4], policy, toJS);
    RunCons(s1.0, e2, [e3, e4], policy, toJS);
    RunCons(h, e1, [e2, e3, e4], policy, toJS);
    assert [e1, e2, e3, e4] == [e1] + [e2, e3, e4];
    assert [e2, e3, e4] == [e2] + [e3, e4];
    assert [e3, e4] == [e3] + [e4];
    assert [e4] == [e4] + [];
  }

  /** The first two events of the scenario below: the action opens at
      depth 0 and the update is filed under it. */
  lemma StartThenUpdate(store: string, rest: string, prop: string, obj: Target, kind: string,
                        before: Value, after: Value, t0: int, t1: int,
                        policy: Refresh, toJS: Value -> Value)
    requires Tracked(store) && '@' !in store
    ensures var h := Fresh.(filter := Some([store]));
      var start := Event(ActionEvent, true, store + "@" + rest, None, "", "", Undef, Undef, [], t0);
      var update := Event(UpdateEvent, true, prop, Some(obj), store + "@" + rest, kind, before, after, [], t1);
      var s1 := Step(h, start, policy, toJS);
      var s2 := Step(s1.0, update, policy, toJS);
      && s1.1 == [] && Emitted(s2.1) == []
      && s2.0.depth == 2 && |s2.0.stack| == 1 && s2.0.stack[0].startDepth == 0
      && s2.0.stack[0].storeName == store
      && s2.0.stack[0].changes == [Change("update", prop, store, kind, Clone(toJS(before)), Clone(toJS(after)))]
  {
    var h := Fresh.(filter := Some([store]));
    var start := Event(ActionEvent, true, store + "@" + rest, None, "", "", Undef, Undef, [], t0);
    OpenFiltered(store, rest, t0, policy, toJS);
    FileUpdate(Step(h, start, policy, toJS).0, store, rest, prop, obj, kind, before, after, t1, policy, toJS);
  }

  /** The action start opens the action at depth 0 under its store. */
  lemma OpenFiltered(store: string, rest: string, t0: int, policy: Refresh, toJS: Value -> Value)
    requires Tracked(store) && '@' !in store
    ensures var h := Fresh.(filter := Some([store]));
      var start := Event(ActionEvent, true, store + "@" + rest, None, "", "", Undef, Undef, [], t0);
      var s1 := Step(h, start, policy, toJS);
      && s1.1 == [] && s1.0.depth == 1 && |s1.0.stack| == 1
      && s1.0.stack[0].startDepth == 0 && s1.0.stack[0].changes == [] && s1.0.stack[0].storeName == store
      && s1.0.filter == Some([store]) && s1.0.editingPath == ""
  {
    var h := Fresh.(filter := Some([store]));
    var start := Event(ActionEvent, true, store + "@" + rest, None, "", "", Undef, Undef, [], t0);
    BeforeOf(store, '@', rest);
    assert store + "@" + rest == store + ['@'] + rest;
    assert (store + "@" + rest)[0] == store[0];
    assert ActionStoreName(start.name, None) == store;
    assert IsFiltered(h.filter, store);
    StepStart(h, start, policy, toJS);
  }

  /** An update of that store, with the action open, is filed under it. */
  lemma FileUpdate(h1: Hook, store: string, rest: string, prop: string, obj: Target, kind: string,
                   before: Value, after: Value, t1: int, policy: Refresh, toJS: Value -> Value)
    requires Tracked(store) && '@' !in store
    requires h1.depth == 1 && |h1.stack| == 1
    requires h1.stack[0].startDepth == 0 && h1.stack[0].changes == [] && h1.stack[0].storeName == store
    requires h1.filter == Some([store]) && h1.editingPath == ""
    ensures var update := Event(UpdateEvent, true, prop, Some(obj), store + "@" + rest, kind, before, after, [], t1);
      var s2 := Step(h1, update, policy, toJS);
      && Emitted(s2.1) == []
      && s2.0.depth == 2 && |s2.0.stack| == 1 && s2.0.stack[0].startDepth == 0
      && s2.0.stack[0].storeName == store
      && s2.0.stack[0].changes == [Change("update", prop, store, kind, Clone(toJS(before)), Clone(toJS(after)))]
  {
    var update := Event(UpdateEvent, true, prop, Some(obj), store + "@" + rest, kind, before, after, [], t1);
    BeforeOf(store, '@', rest);
    assert store + "@" + rest == store + ['@'] + rest;
    assert (store + "@" + rest)[0] == store[0];
    assert ChangeStoreName(update.debugObjectName, update.target) == store;
    assert IsFiltered(h1.filter, store);
    StepMutate(h1, update, policy, toJS);
    MutateStack(h1.(depth := 2), update, policy, toJS);
    var s2 := Step(h1, update, policy, toJS);
    assert !Suppressed(h1.(depth := 2), update);
    assert s2.0.stack == Attach(h1.stack, ChangeOf(update, store, toJS));
  }

  /** An action of a filtered store that performs one update: the
      update's own `report-end` closes nothing, and the action's
      `report-end` closes the action and sends it with exactly that one
      change. */
  lemma ActionWithOneUpdate(store: string, rest: string, prop: string, obj: Target, kind: string,
                            before: Value, after: Value, t0: int, t1: int,
                            policy: Refresh, toJS: Value -> Value)
    requires Tracked(store) && '@' !in store
    ensures var h := Fresh.(filter := Some([store]));
      var start := Event(ActionEvent, true, store + "@" + rest, None, "", "", Undef, Undef, [], t0);
      var update := Event(UpdateEvent, true, prop, Some(obj), store + "@" + rest, kind, before, after, [], t1);
      var end := Event(ReportEnd, false, "", None, "", "", Undef, Undef, [], t1);
      var open := Run(h, [start, update, end], policy, toJS);
      var done := Run(h, [start, update, end, end], policy, toJS);
      && |open.0.stack| == 1 && Emitted(open.1) == []
      && done.0.stack == [] && done.0.depth == 0
      && Emitted(done.1) == [open.0.stack[0]]
      && open.0.stack[0].storeName == store
      && open.0.stack[0].changes == [Change("update", prop, store, kind, Clone(toJS(before)), Clone(toJS(after)))]
  {
    var h := Fresh.(filter := Some([store]));
    var start := Event(ActionEvent, true, store + "@" + rest, None, "", "", Undef, Undef, [], t0);
    var update := Event(UpdateEvent, true, prop, Some(obj), store + "@" + rest, kind, before, after, [], t1);
    var end := Event(ReportEnd, false, "", None, "", "", Undef, Undef, [], t1);
    StartThenUpdate(store, rest, prop, obj, kind, before, after, t0, t1, policy, toJS);
    var s1 := Step(h, start, policy, toJS);
    var s2 := Step(s1.0, update, policy, toJS);
    var a := s2.0.stack[0];
    TwoEnds(s2.0, end, policy, toJS);
    var s3 := Step(s2.0, end, policy, toJS);
    var s4 := Step(s3.0, end, policy, toJS);
    RunThree(h, start, update, end, policy, toJS);
    RunFour(h, start, update, end, end, policy, toJS);
    EmittedAppend(s2.1, []);
    EmittedAppend(s2.1, [Emit(a)]);
    assert s1.1 + (s2.1 + (s3.1 + [])) == s2.1 + [];
    assert s1.1 + (s2.1 + (s3.1 + (s4.1 + []))) == s2.1 + [Emit(a)];
    assert Emitted([Emit(a)]) == [a];
  }
}
