/** The State tab: which stores the tree shows, the store-selection
    buttons, and the inline editor that writes a typed value into the
    panel's copy of the state and asks the page to do the same. */
module StatePanel {
  import opened Wrappers
  import opened Assoc
  import opened Values
  import opened Paths
  import opened Edit
  import opened Correlator
  import opened PageHook
  import opened PanelState

  /** What `renderState` shows: a placeholder for an empty state, another
      when no selected store is present, or the tree of the shown stores. */
  datatype View = NoState | NoStores | Tree(stores: seq<Entry<Value>>)

  /** The stores of `fields` whose names are selected, in state order. */
  function Chosen(fields: seq<Entry<Value>>, selected: seq<string>): (r: seq<Entry<Value>>)
    ensures |r| <= |fields|
    ensures forall i :: 0 <= i < |r| ==> r[i] in fields && r[i].key in selected
    ensures forall i :: 0 <= i < |fields| && fields[i].key in selected ==> fields[i] in r
  {
    if |fields| == 0 then []
    else
      var rest := Chosen(fields[1..], selected);
      if fields[0].key in selected then [fields[0]] + rest else rest
  }

  /** `renderState`. */
  function RenderState(p: Panel): (v: View)
    ensures v == NoState <==> |p.currentState| == 0
    ensures v == NoStores <==> |p.currentState| > 0 && forall i :: 0 <= i < |p.currentState| ==> p.currentState[i].key !in p.selectedStores
    ensures v.Tree? ==> forall e :: e in v.stores <==> e in p.currentState && e.key in p.selectedStores
  {
    if |p.currentState| == 0 then NoState
    else
      var shown := Chosen(p.currentState, p.selectedStores);
      if |shown| == 0 then NoStores
      else
        assert shown[0] in p.currentState && shown[0].key in p.selectedStores;
        Tree(shown)
  }

  /** The tree shows a store exactly when it is in the state and selected,
      and shows it with its value in the state. */
  lemma RenderedStores(p: Panel, k: string)
    requires UniqueKeys(p.currentState)
    requires RenderState(p).Tree?
    ensures Has(RenderState(p).stores, k) <==> Has(p.currentState, k) && k in p.selectedStores
    ensures Has(RenderState(p).stores, k) ==> Lookup(RenderState(p).stores, k) == Lookup(p.currentState, k)
  {
    assert RenderState(p).stores == Chosen(p.currentState, p.selectedStores);
    ChosenHas(p.currentState, p.selectedStores, k);
  }

  lemma ChosenHas(fields: seq<Entry<Value>>, selected: seq<string>, k: string)
    requires UniqueKeys(fields)
    ensures Has(Chosen(fields, selected), k) <==> Has(fields, k) && k in selected
    ensures Has(Chosen(fields, selected), k) ==> Lookup(Chosen(fields, selected), k) == Lookup(fields, k)
  {
    if Has(Chosen(fields, selected), k) {
      ChosenShown(fields, selected, k);
    }
    if Has(fields, k) && k in selected {
      ChosenKeeps(fields, selected, k);
    }
  }

  lemma ChosenShown(fields: seq<Entry<Value>>, selected: seq<string>, k: string)
    requires UniqueKeys(fields) && Has(Chosen(fields, selected), k)
    ensures Has(fields, k) && k in selected
    ensures Lookup(Chosen(fields, selected), k) == Lookup(fields, k)
  {
    var shown := Chosen(fields, selected);
    var j :| 0 <= j < |shown| && Keys(shown)[j] == k;
    assert shown[j] in fields;
    var i :| 0 <= i < |fields| && fields[i] == shown[j];
    assert Keys(fields)[i] == k;
    LookupAt(fields, i);
    ChosenLookup(fields, selected, i);
  }

  lemma ChosenKeeps(fields: seq<Entry<Value>>, selected: seq<string>, k: string)
    requires Has(fields, k) && k in selected
    ensures Has(Chosen(fields, selected), k)
  {
    var shown := Chosen(fields, selected);
    var i :| 0 <= i < |fields| && Keys(fields)[i] == k;
    assert fields[i] in shown;
    var j :| 0 <= j < |shown| && shown[j] == fields[i];
    assert Keys(shown)[j] == k;
  }

  /** A chosen store is looked up in the chosen list as in the state. */
  lemma {:induction false} ChosenLookup(fields: seq<Entry<Value>>, selected: seq<string>, i: nat)
    requires UniqueKeys(fields) && i < |fields| && fields[i].key in selected
    ensures Lookup(Chosen(fields, selected), fields[i].key) == Some(fields[i].val)
  {
    var k := fields[i].key;
    var rest := Chosen(fields[1..], selected);
    if i == 0 {
      if k in selected {
        var shown := [fields[0]] + rest;
        assert shown[0] == fields[0];
        LookupCons(shown, k);
      }
    } else {
      assert Keys(fields)[0] != Keys(fields)[i];
      UniqueTail(fields);
      assert fields[1..][i - 1] == fields[i];
      ChosenLookup(fields[1..], selected, i - 1);
      if fields[0].key in selected {
        TailLookup(fields, rest, k);
      }
    }
  }

  /** `selectedStores.add(name)`: a set keeps insertion order and ignores
      a name it already has. */
  function Add(selected: seq<string>, name: string): (r: seq<string>)
    ensures name in r && forall n :: n in r <==> n in selected || n == name
    ensures selected <= r
  {
    if name in selected then selected else selected + [name]
  }

  /** `selectedStores.delete(name)`. */
  function Remove(selected: seq<string>, name: string): (r: seq<string>)
    ensures forall n :: n in r <==> n in selected && n != name
    ensures Distinct(selected) ==> Distinct(r)
  {
    if |selected| == 0 then []
    else
      var rest := Remove(selected[1..], name);
      if selected[0] == name then rest
      else
        var r := [selected[0]] + rest;
        assert Distinct(selected) ==> Distinct(r) by {
          if Distinct(selected) {
            assert Distinct(selected[1..]) by {
              forall a, b | 0 <= a < b < |selected[1..]| ensures selected[1..][a] != selected[1..][b] {
                assert selected[a + 1] != selected[b + 1];
              }
            }
            forall a | 0 <= a < |rest| ensures rest[a] != selected[0] {
              assert rest[a] in selected[1..];
              var t :| 0 <= t < |selected[1..]| && selected[1..][t] == rest[a];
              assert selected[0] != selected[t + 1];
            }
          }
        }
        r
  }

  /** "Select All": every listed store name is added, in order. */
  function SelectAll(selected: seq<string>, names: seq<string>): (r: seq<string>)
    ensures selected <= r
    ensures forall n :: n in r <==> n in selected || n in names
    decreases |names|
  {
    if |names| == 0 then selected else SelectAll(Add(selected, names[0]), names[1..])
  }

  /** Adding names one by one never repeats a name. */
  lemma {:induction false} SelectAllDistinct(selected: seq<string>, names: seq<string>)
    requires Distinct(selected)
    ensures Distinct(SelectAll(selected, names))
    decreases |names|
  {
    if |names| > 0 {
      var s := Add(selected, names[0]);
      assert Distinct(s) by {
        if names[0] !in selected {
          forall a | 0 <= a < |selected| ensures s[a] != s[|selected|] {
            assert selected[a] in selected;
          }
        }
      }
      SelectAllDistinct(s, names[1..]);
    }
  }

  /** The message `saveSelectedStores` (and `sendFilterToPage`) posts:
      the selected names as an array, `[]` when none is selected. */
  function FilterMessage(selected: seq<string>): (m: Message)
    ensures m.SetFilter? && m.stores.Some?
    ensures |m.stores.value| == 0 <==> |selected| == 0
    ensures forall n :: n in m.stores.value <==> n in selected
  {
    if |selected| > 0 then SetFilter(Some(selected)) else SetFilter(Some([]))
  }

  /** "Select All" then "Deselect All", and a checkbox: each changes the
      selection and posts the new filter. The two buttons also re-render
      the filter, which re-reads the store list from the current state;
      a checkbox leaves the list as it was. */
  datatype Choice = SelectEvery | DeselectEvery | Check(name: string, checked: bool)

  function Choose(p: Panel, c: Choice): (r: (Panel, Message))
    ensures r.0 == p.(selectedStores := r.0.selectedStores, allStoreNames := r.0.allStoreNames)
    ensures c.Check? ==> r.0.allStoreNames == p.allStoreNames
    ensures !c.Check? ==> forall n :: n in r.0.allStoreNames <==> Has(p.currentState, n)
    ensures r.1 == FilterMessage(r.0.selectedStores)
    ensures c.SelectEvery? ==> forall n :: n in p.allStoreNames ==> n in r.0.selectedStores
    ensures c.DeselectEvery? ==> r.0.selectedStores == []
    ensures c.Check? ==> forall n :: n != c.name ==> (n in r.0.selectedStores <==> n in p.selectedStores)
    ensures c.Check? ==> (c.name in r.0.selectedStores <==> c.checked)
  {
    var s := match c
      case SelectEvery => SelectAll(p.selectedStores, p.allStoreNames)
      case DeselectEvery => []
      case Check(name, checked) => if checked then Add(p.selectedStores, name) else Remove(p.selectedStores, name);
    var names := if c.Check? then p.allStoreNames else Keys(p.currentState);
    (p.(selectedStores := s, allStoreNames := names), FilterMessage(s))
  }

  /** Once the page has the filter posted after "Deselect All", no store is
      filtered: its actions are sent only when they record changes, and its
      mutations record none. */
  lemma DeselectAllSilencesPage(p: Panel, page: Page, plain: Value -> Value, parseNumber: string -> Option<int>, store: string)
    ensures var m := Choose(p, DeselectEvery).1;
      !IsFiltered(Handle(page, m, plain, parseNumber).0.hook.filter, store)
  {
  }

  /** After "Select All", the page files the changes of every store the
      filter list showed. */
  lemma SelectAllTracksListed(p: Panel, page: Page, plain: Value -> Value, parseNumber: string -> Option<int>, store: string)
    requires store in p.allStoreNames
    ensures var m := Choose(p, SelectEvery).1;
      IsFiltered(Handle(page, m, plain, parseNumber).0.hook.filter, store)
  {
    var s := Choose(p, SelectEvery).0.selectedStores;
    assert store in s;
  }

  /** A list gone stale catches up on the next click: after "Select All"
      twice, every store of the current state is selected, whatever list
      the filter showed before. */
  lemma SelectAllTwiceCoversState(p: Panel, store: string)
    requires Has(p.currentState, store)
    ensures var q := Choose(Choose(p, SelectEvery).0, SelectEvery).0;
      store in q.selectedStores && q.currentState == p.currentState
  {
    var q1 := Choose(p, SelectEvery).0;
    assert store in q1.allStoreNames;
  }

  /** An open inline editor: the store and path of the edited leaf, the
      text it showed (`displayValue.toString()`), the text typed so far,
      and the re-entry guard. */
  datatype Editor = Editor(storeName: string, path: string, display: string, input: string, finishing: bool)

  /** `editValue` on a string, number or boolean leaf. */
  function EditValue(p: Panel, storeName: string, path: string, current: Value): (r: (Panel, Editor))
    requires current.Str? || current.Num? || current.Bool?
    ensures r.0 == p.(isEditing := true)
    ensures r.1.input == r.1.display == DisplayText(current) && !r.1.finishing
  {
    (p.(isEditing := true), Editor(storeName, path, DisplayText(current), DisplayText(current), false))
  }

  /** How the local write of an edit ends. */
  datatype LocalOutcome =
    | NoStore                  // the store's value is falsy: nothing written
    | Walk(outcome: Outcome)   // the walk over the store's value

  /** The local write: the edited store's value must be truthy; then the
      walk shared with the page hook. */
  function LocalEdit(state: seq<Entry<Value>>, storeName: string, path: string, raw: string,
                     parseNumber: string -> Option<int>): (r: LocalOutcome)
    ensures r.NoStore? <==> !Truthy(Lookup(state, storeName).GetOr(Undef))
    ensures r.Walk? ==> Has(state, storeName)
    ensures r.Walk? ==> r.outcome == EditStore(Lookup(state, storeName).value, storeName, path, raw, parseNumber)
  {
    var target := Lookup(state, storeName).GetOr(Undef);
    if !Truthy(target) then NoStore else Walk(EditStore(target, storeName, path, raw, parseNumber))
  }

  /** `finishEdit(save)`: with nothing to save (cancelled, or the text
      unchanged) the editor just closes; a missing store or a `null` on the
      way leaves the editor open, the panel still editing and the guard
      released; a thrown assignment closes the editor without writing;
      otherwise the panel's copy is written and the page gets `SET_VALUE`
      with the text as typed. */
  function FinishEdit(p: Panel, e: Editor, save: bool, parseNumber: string -> Option<int>)
    : (r: (Panel, Editor, seq<Message>))
  {
    if e.finishing then (p, e, [])
    else if !(save && e.input != e.display) then (p.(isEditing := false), e.(finishing := true), [])
    else
      match LocalEdit(p.currentState, e.storeName, e.path, e.input, parseNumber)
      case NoStore => (p, e, [])
      case Walk(Aborted) => (p, e, [])
      case Walk(Threw) => (p.(isEditing := false), e.(finishing := true), [])
      case Walk(Written(root)) =>
        (WriteThrough(p, Update(p.currentState, e.storeName, root)).(isEditing := false), e.(finishing := true),
         [SetValue(e.storeName, e.path, e.input)])
  }

  /** Nothing is written or sent unless the edit is saved with changed
      text; the editor then closes. */
  lemma FinishWithoutChange(p: Panel, e: Editor, save: bool, parseNumber: string -> Option<int>)
    requires !e.finishing && (!save || e.input == e.display)
    ensures var r := FinishEdit(p, e, save, parseNumber);
      r.0 == p.(isEditing := false) && r.1.finishing && r.2 == []
  {
  }

  /** A second call of the same editor's `finishEdit` does nothing. */
  lemma FinishOnce(p: Panel, e: Editor, save: bool, save2: bool, parseNumber: string -> Option<int>)
    requires !e.finishing
    ensures var r := FinishEdit(p, e, save, parseNumber);
      r.1.finishing ==> FinishEdit(r.0, r.1, save2, parseNumber) == (r.0, r.1, [])
  {
  }

  /** A falsy store or a `null` / `undefined` on the path writes nothing,
      sends nothing and leaves the panel editing, so that state updates
      stay held back until the editor is closed another way. */
  lemma FinishAborts(p: Panel, e: Editor, parseNumber: string -> Option<int>)
    requires !e.finishing && e.input != e.display
    requires var t := Lookup(p.currentState, e.storeName).GetOr(Undef);
      var w := Walked(e.storeName, ParsePath(e.path));
      !Truthy(t) || exists i :: 0 <= i <= |w.0| && Nullish(Read(t, w.0[..i]))
    ensures FinishEdit(p, e, true, parseNumber) == (p, e, [])
  {
  }

  /** A completed edit sends the typed text, uncoerced, for the same store
      and path; the panel's copy then reads the coerced text at the edited
      leaf, and no other store changes. */
  lemma FinishWrites(p: Panel, e: Editor, parseNumber: string -> Option<int>)
    requires !e.finishing && e.input != e.display
    requires LocalEdit(p.currentState, e.storeName, e.path, e.input, parseNumber).Walk?
    requires LocalEdit(p.currentState, e.storeName, e.path, e.input, parseNumber).outcome.Written?
    requires var w := Walked(e.storeName, ParsePath(e.path));
      Holds(Read(Lookup(p.currentState, e.storeName).value, w.0), w.1)
    ensures var r := FinishEdit(p, e, true, parseNumber);
      var w := Walked(e.storeName, ParsePath(e.path));
      && r.2 == [SetValue(e.storeName, e.path, e.input)]
      && !r.0.isEditing
      && Read(Lookup(r.0.currentState, e.storeName).value, w.0 + [w.1])
         == Landed(Read(Lookup(p.currentState, e.storeName).value, w.0), w.1,
                   Coerce(Read(Lookup(p.currentState, e.storeName).value, w.0 + [w.1]), e.input, parseNumber))
      && forall k :: k != e.storeName ==> Lookup(r.0.currentState, k) == Lookup(p.currentState, k)
  {
    var w := Walked(e.storeName, ParsePath(e.path));
    var t := Lookup(p.currentState, e.storeName).value;
    WriteReadBack(t, w.0, w.1, e.input, parseNumber);
  }

  /** The panel's local write and the page's write agree: when the page
      receives the `SET_VALUE` of a completed edit and its live store holds
      what the panel's copy held, the live store ends up as the panel's
      copy. */
  lemma PanelAndPageAgree(p: Panel, e: Editor, parseNumber: string -> Option<int>,
                          page: Page, plain: Value -> Value, t: Target)
    requires !e.finishing && e.input != e.display
    requires LocalEdit(p.currentState, e.storeName, e.path, e.input, parseNumber).Walk?
    requires LocalEdit(p.currentState, e.storeName, e.path, e.input, parseNumber).outcome.Written?
    requires Lookup(page.hook.stores, e.storeName) == Some(t)
    requires Deref(page.heap, t) == Lookup(p.currentState, e.storeName).value
    ensures var r := FinishEdit(p, e, true, parseNumber);
      && |r.2| == 1
      && var q := Handle(page, r.2[0], plain, parseNumber).0;
      t.ref in q.heap && Some(q.heap[t.ref]) == Lookup(r.0.currentState, e.storeName)
  {
    var root := LocalEdit(p.currentState, e.storeName, e.path, e.input, parseNumber).outcome.root;
    LocalWriteLands(p, e, parseNumber, root);
    PageWriteLands(page, e.storeName, e.path, e.input, plain, parseNumber, t, root);
  }

  lemma LocalWriteLands(p: Panel, e: Editor, parseNumber: string -> Option<int>, root: Value)
    requires !e.finishing && e.input != e.display
    requires LocalEdit(p.currentState, e.storeName, e.path, e.input, parseNumber) == Walk(Written(root))
    ensures var r := FinishEdit(p, e, true, parseNumber);
      r.2 == [SetValue(e.storeName, e.path, e.input)] && Lookup(r.0.currentState, e.storeName) == Some(root)
  {
  }

  lemma PageWriteLands(page: Page, storeName: string, path: string, raw: string, plain: Value -> Value,
                       parseNumber: string -> Option<int>, t: Target, root: Value)
    requires Lookup(page.hook.stores, storeName) == Some(t)
    requires EditStore(Deref(page.heap, t), storeName, path, raw, parseNumber) == Written(root)
    ensures Handle(page, SetValue(storeName, path, raw), plain, parseNumber).0.heap == page.heap[t.ref := root]
  {
    SetValueHeap(page, storeName, path, raw, parseNumber, t, root);
  }

  /** Editing keeps the committed snapshot and the panel's state one
      object when they were. */
  lemma FinishKeepsCoherent(p: Panel, e: Editor, save: bool, parseNumber: string -> Option<int>)
    requires Coherent(p)
    ensures Coherent(FinishEdit(p, e, save, parseNumber).0)
  {
  }
}
