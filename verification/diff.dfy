/** `calculateDiff(before, after, path)`: the list of property-level
    changes between two states, as the action detail view shows them. */
module Diff {
  import opened Wrappers
  import opened Assoc
  import opened Values
  import Text

  datatype Change =
    | Added(path: string, newValue: Value)
    | Removed(path: string, oldValue: Value)
    | Modified(path: string, oldValue: Value, newValue: Value)

  /** The keys of a `Set` built from `ks`: first occurrences, in order. */
  function Dedup(ks: seq<string>): (r: seq<string>)
    ensures Distinct(r)
    ensures forall k :: k in r <==> k in ks
  {
    if |ks| == 0 then []
    else
      var d := Dedup(ks[..|ks| - 1]);
      var k := ks[|ks| - 1];
      assert ks == ks[..|ks| - 1] + [k];
      if k in d then d else d + [k]
  }

  /** The path of a member: `path.key`, or just `key` at the top. */
  function ChildPath(path: string, key: string): string
  {
    if path == "" then key else path + "." + key
  }

  /** `path || 'root'`. */
  function RootPath(path: string): string
  {
    if path == "" then "root" else path
  }

  /** Every change is reported at `path` itself or strictly below it. */
  predicate Below(changes: seq<Change>, path: string)
  {
    forall i :: 0 <= i < |changes| ==>
      (changes[i].path == path && changes[i].Modified?) || path + "." <= changes[i].path
  }

  lemma LookupSmaller(fields: seq<Entry<Value>>, k: string)
    requires Lookup(fields, k).Some?
    ensures Size(Lookup(fields, k).value) < 1 + FieldsSize(fields)
  {
  }

  /** Only plain objects (not arrays, not `null`) are compared member by
      member; any other pair is compared through its printed form, which
      is `safeStringify`'s (`undefined` as a word, the rest as
      `JSON.stringify` writes it). An object against anything else is one
      modification. */
  function Diff(before: Value, after: Value, path: string): (r: seq<Change>)
    ensures path != "" ==> Below(r, path)
    ensures !before.Obj? && !after.Obj? ==>
      (r == [] <==> SafeStringify(before) == SafeStringify(after))
    ensures !before.Obj? && !after.Obj? && SafeStringify(before) != SafeStringify(after) ==>
      r == [Modified(RootPath(path), before, after)]
    ensures before.Obj? != after.Obj? ==> r == [Modified(RootPath(path), before, after)]
    decreases Size(before), 1, 0
  {
    if !before.Obj? && !after.Obj? then
      if SafeStringify(before) != SafeStringify(after) then [Modified(RootPath(path), before, after)] else []
    else if !before.Obj? || !after.Obj? then
      [Modified(RootPath(path), before, after)]
    else
      DiffKeys(before.fields, after.fields, Dedup(Keys(before.fields) + Keys(after.fields)), path)
  }

  /** The changes for each key of `keys`, in order. */
  function DiffKeys(bf: seq<Entry<Value>>, af: seq<Entry<Value>>, keys: seq<string>, path: string)
    : (r: seq<Change>)
    ensures path != "" ==> Below(r, path) && forall i :: 0 <= i < |r| ==> r[i].path != path
    decreases 1 + FieldsSize(bf), 0, |keys|
  {
    if |keys| == 0 then []
    else
      var here, rest := DiffKey(bf, af, keys[0], path), DiffKeys(bf, af, keys[1..], path);
      var r := here + rest;
      assert path != "" ==> forall i :: 0 <= i < |r| ==> r[i] == (if i < |here| then here[i] else rest[i - |here|]);
      r
  }

  /** The changes for one key: added, removed, one modification for a
      pair involving an array or a primitive whose printed forms differ,
      and the nested changes of two plain objects. */
  function DiffKey(bf: seq<Entry<Value>>, af: seq<Entry<Value>>, key: string, path: string)
    : (r: seq<Change>)
    ensures path != "" ==> Below(r, path) && forall i :: 0 <= i < |r| ==> r[i].path != path
    ensures Lookup(bf, key).None? && Lookup(af, key).Some? ==>
      r == [Added(ChildPath(path, key), Lookup(af, key).value)]
    ensures Lookup(bf, key).Some? && Lookup(af, key).None? ==>
      r == [Removed(ChildPath(path, key), Lookup(bf, key).value)]
    ensures Lookup(bf, key).Some? && Lookup(af, key).Some? && ChildPath(path, key) != "" ==>
      Below(r, ChildPath(path, key))
    decreases 1 + FieldsSize(bf), 0, 0
  {
    var p := ChildPath(path, key);
    assert path != "" ==> path + "." <= p;
    match (Lookup(bf, key), Lookup(af, key))
    case (None, Some(av)) => [Added(p, av)]
    case (Some(bv), None) => [Removed(p, bv)]
    case (Some(bv), Some(av)) =>
      // Two arrays, or an array and an object, are compared through
      // their JSON text, as are primitives: only two plain objects nest.
      if bv.Obj? && av.Obj? then
        LookupSmaller(bf, key);
        var nested := Diff(bv, av, p);
        NestedBelow(nested, path, key);
        nested
      else if SafeStringify(bv) != SafeStringify(av) then [Modified(p, bv, av)]
      else []
    case (None, None) => []
  }

  /** Changes below a member's path are below the enclosing path too. */
  lemma NestedBelow(nested: seq<Change>, path: string, key: string)
    requires path != "" ==> Below(nested, ChildPath(path, key))
    ensures path != "" ==> Below(nested, path) && forall i :: 0 <= i < |nested| ==> nested[i].path != path
  {
    var p := ChildPath(path, key);
    forall i | 0 <= i < |nested| && path != "" ensures path + "." <= nested[i].path {
      if nested[i].path != p {
        assert p + "." <= nested[i].path;
        assert (p + ".")[..|path| + 1] == path + ".";
      }
    }
  }

  /** A key holding an array on either side is compared whole: one
      modification when the printed forms differ, nothing otherwise, and
      no change reported inside the array. */
  lemma ArraysComparedWhole(bf: seq<Entry<Value>>, af: seq<Entry<Value>>, key: string, path: string)
    requires Lookup(bf, key).Some? && Lookup(af, key).Some?
    requires Lookup(bf, key).value.Arr? || Lookup(af, key).value.Arr?
    ensures var bv, av := Lookup(bf, key).value, Lookup(af, key).value;
      DiffKey(bf, af, key, path) ==
        if SafeStringify(bv) == SafeStringify(av) then [] else [Modified(ChildPath(path, key), bv, av)]
  {
  }

  /** A state compared with itself has no changes. */
  lemma {:induction false} DiffSelf(x: Value, path: string)
    ensures Diff(x, x, path) == []
    decreases Size(x), 1, 0
  {
    if x.Obj? {
      DiffKeysSelf(x.fields, Dedup(Keys(x.fields) + Keys(x.fields)), path);
    }
  }

  lemma {:induction false} DiffKeysSelf(f: seq<Entry<Value>>, keys: seq<string>, path: string)
    ensures DiffKeys(f, f, keys, path) == []
    decreases 1 + FieldsSize(f), 0, |keys|
  {
    if |keys| > 0 {
      DiffKeySelf(f, keys[0], path);
      DiffKeysSelf(f, keys[1..], path);
    }
  }

  lemma {:induction false} DiffKeySelf(f: seq<Entry<Value>>, key: string, path: string)
    ensures DiffKey(f, f, key, path) == []
    decreases 1 + FieldsSize(f), 0, 0
  {
    match Lookup(f, key)
    case None =>
    case Some(v) =>
      if v.Obj? {
        LookupSmaller(f, key);
        DiffSelf(v, ChildPath(path, key));
      }
  }

  /** Over member keys free of `.`, the additions a walk of `keys`
      reports are exactly the keys of `keys` present only after. */
  lemma {:induction false} DiffKeysAdded(bf: seq<Entry<Value>>, af: seq<Entry<Value>>, keys: seq<string>,
                                         k: string, v: Value)
    requires forall i :: 0 <= i < |keys| ==> keys[i] != ""
    requires '.' !in k
    ensures Added(k, v) in DiffKeys(bf, af, keys, "") <==>
      k in keys && Lookup(bf, k).None? && Lookup(af, k) == Some(v)
    decreases |keys|
  {
    if |keys| > 0 {
      DiffKeysAdded(bf, af, keys[1..], k, v);
      var here := DiffKey(bf, af, keys[0], "");
      assert DiffKeys(bf, af, keys, "") == here + DiffKeys(bf, af, keys[1..], "");
      if Lookup(bf, keys[0]).Some? && Lookup(af, keys[0]).Some? {
        forall i | 0 <= i < |here| && here[i].Added?
          ensures '.' in here[i].path
        {
          assert keys[0] + "." <= here[i].path;
          assert here[i].path[|keys[0]|] == '.';
        }
        assert Added(k, v) !in here;
      }
    }
  }

  /** The same for removals: keys present only before. */
  lemma {:induction false} DiffKeysRemoved(bf: seq<Entry<Value>>, af: seq<Entry<Value>>, keys: seq<string>,
                                           k: string, v: Value)
    requires forall i :: 0 <= i < |keys| ==> keys[i] != ""
    requires '.' !in k
    ensures Removed(k, v) in DiffKeys(bf, af, keys, "") <==>
      k in keys && Lookup(bf, k) == Some(v) && Lookup(af, k).None?
    decreases |keys|
  {
    if |keys| > 0 {
      DiffKeysRemoved(bf, af, keys[1..], k, v);
      var here := DiffKey(bf, af, keys[0], "");
      assert DiffKeys(bf, af, keys, "") == here + DiffKeys(bf, af, keys[1..], "");
      if Lookup(bf, keys[0]).Some? && Lookup(af, keys[0]).Some? {
        forall i | 0 <= i < |here| && here[i].Removed?
          ensures '.' in here[i].path
        {
          assert keys[0] + "." <= here[i].path;
          assert here[i].path[|keys[0]|] == '.';
        }
        assert Removed(k, v) !in here;
      }
    }
  }

  lemma NoEmptyKey(bf: seq<Entry<Value>>, af: seq<Entry<Value>>, keys: seq<string>)
    requires forall i :: 0 <= i < |bf| ==> bf[i].key != ""
    requires forall i :: 0 <= i < |af| ==> af[i].key != ""
    requires keys == Dedup(Keys(bf) + Keys(af))
    ensures forall i :: 0 <= i < |keys| ==> keys[i] != ""
  {
    var all := Keys(bf) + Keys(af);
    forall i | 0 <= i < |keys| ensures keys[i] != "" {
      assert keys[i] in all;
      var j :| 0 <= j < |all| && all[j] == keys[i];
      if j < |bf| { assert all[j] == bf[j].key; } else { assert all[j] == af[j - |bf|].key; }
    }
  }

  /** Comparing two state objects whose store names are non-empty: a
      store name (free of `.`) is reported added with value `v` exactly
      when only the later state has it, with value `v`; and reported
      removed exactly when only the earlier one has it. */
  lemma AddedRemovedExactly(bf: seq<Entry<Value>>, af: seq<Entry<Value>>, k: string, v: Value)
    requires forall i :: 0 <= i < |bf| ==> bf[i].key != ""
    requires forall i :: 0 <= i < |af| ==> af[i].key != ""
    requires '.' !in k
    ensures Added(k, v) in Diff(Obj(bf), Obj(af), "") <==> Lookup(bf, k).None? && Lookup(af, k) == Some(v)
    ensures Removed(k, v) in Diff(Obj(bf), Obj(af), "") <==> Lookup(bf, k) == Some(v) && Lookup(af, k).None?
  {
    var keys := Dedup(Keys(bf) + Keys(af));
    NoEmptyKey(bf, af, keys);
    assert Diff(Obj(bf), Obj(af), "") == DiffKeys(bf, af, keys, "");
    assert Lookup(af, k).Some? ==> k in Keys(af);
    assert Lookup(bf, k).Some? ==> k in Keys(bf);
    DiffKeysAdded(bf, af, keys, k, v);
    DiffKeysRemoved(bf, af, keys, k, v);
  }

  /** Two states agree, key by key, the way `calculateDiff` compares
      them: plain objects have the same keys and agreeing members, and
      any other pair prints alike. */
  predicate Same(b: Value, a: Value)
    decreases b
  {
    if b.Obj? && a.Obj? then
      && (forall i :: 0 <= i < |a.fields| ==> Has(b.fields, a.fields[i].key))
      && forall i :: 0 <= i < |b.fields| ==>
           && Has(a.fields, b.fields[i].key)
           && Same(b.fields[i].val, Lookup(a.fields, b.fields[i].key).value)
    else
      !b.Obj? && !a.Obj? && SafeStringify(b) == SafeStringify(a)
  }

  /** The printed form of a plain object starts with `{`; no other
      value's does. */
  lemma ObjectPrintsApart(b: Value, a: Value)
    requires b.Obj? && !a.Obj?
    ensures SafeStringify(b) != SafeStringify(a)
  {
    var t := SafeStringify(b).value;
    assert t[0] == '{';
    match a
    case Num(n) =>
      var digits := Text.NatToDigits(if n < 0 then -n else n);
      assert Text.IsDigit(digits[0]);
      assert SafeStringify(a).value[0] == Text.IntToDecimal(n)[0];
    case _ =>
  }

  lemma {:induction false} DiffKeysEmpty(bf: seq<Entry<Value>>, af: seq<Entry<Value>>, keys: seq<string>, path: string)
    ensures DiffKeys(bf, af, keys, path) == [] <==>
      forall j :: 0 <= j < |keys| ==> DiffKey(bf, af, keys[j], path) == []
    decreases |keys|
  {
    if |keys| > 0 {
      DiffKeysEmpty(bf, af, keys[1..], path);
      assert forall j :: 1 <= j < |keys| ==> keys[j] == keys[1..][j - 1];
    }
  }

  /** No change for a key exactly when both sides have it and agree, or
      neither has it. */
  lemma {:induction false} DiffKeyEmpty(bf: seq<Entry<Value>>, af: seq<Entry<Value>>, key: string, path: string)
    requires WellFormed(Obj(bf)) && WellFormed(Obj(af))
    ensures DiffKey(bf, af, key, path) == [] <==>
      && (Lookup(bf, key).Some? <==> Lookup(af, key).Some?)
      && (Lookup(bf, key).Some? ==> Same(Lookup(bf, key).value, Lookup(af, key).value))
    decreases 1 + FieldsSize(bf), 0
  {
    if Lookup(bf, key).Some? && Lookup(af, key).Some? {
      var bv, av := Lookup(bf, key).value, Lookup(af, key).value;
      assert WellFormed(bv) && WellFormed(av) by {
        var i :| 0 <= i < |bf| && bf[i] == Entry(key, bv);
        var j :| 0 <= j < |af| && af[j] == Entry(key, av);
      }
      LookupSmaller(bf, key);
      DiffKeyBoth(bf, af, key, path);
      if bv.Obj? && av.Obj? {
        DiffSelfSame(bv, av, ChildPath(path, key));
      } else if bv.Obj? {
        ObjectPrintsApart(bv, av);
      } else if av.Obj? {
        ObjectPrintsApart(av, bv);
      }
    }
  }

  lemma DiffKeyBoth(bf: seq<Entry<Value>>, af: seq<Entry<Value>>, key: string, path: string)
    requires Lookup(bf, key).Some? && Lookup(af, key).Some?
    ensures var bv, av := Lookup(bf, key).value, Lookup(af, key).value;
      DiffKey(bf, af, key, path) ==
        if bv.Obj? && av.Obj? then Diff(bv, av, ChildPath(path, key))
        else if SafeStringify(bv) != SafeStringify(av) then [Modified(ChildPath(path, key), bv, av)]
        else []
  {
  }

  /** Key `k` is on both sides with agreeing values, or on neither. */
  predicate KeyMatch(bf: seq<Entry<Value>>, af: seq<Entry<Value>>, k: string)
  {
    && (Lookup(bf, k).Some? <==> Lookup(af, k).Some?)
    && (Lookup(bf, k).Some? ==> Same(Lookup(bf, k).value, Lookup(af, k).value))
  }

  /** Each key of `keys` yields no change exactly when it matches. */
  predicate KeysAgree(bf: seq<Entry<Value>>, af: seq<Entry<Value>>, keys: seq<string>, path: string)
  {
    forall k :: k in keys ==> (DiffKey(bf, af, k, path) == [] <==> KeyMatch(bf, af, k))
  }

  /** The object case of `DiffSelfSame`, once each key is known to agree. */
  lemma ObjectDiffSame(bf: seq<Entry<Value>>, af: seq<Entry<Value>>, path: string)
    requires UniqueKeys(bf)
    requires KeysAgree(bf, af, Dedup(Keys(bf) + Keys(af)), path)
    ensures Diff(Obj(bf), Obj(af), path) == [] <==> Same(Obj(bf), Obj(af))
  {
    var keys := Dedup(Keys(bf) + Keys(af));
    DiffKeysEmpty(bf, af, keys, path);
    if Diff(Obj(bf), Obj(af), path) == [] {
      forall i | 0 <= i < |bf|
        ensures Has(af, bf[i].key) && Same(bf[i].val, Lookup(af, bf[i].key).value)
      {
        assert Keys(bf)[i] == bf[i].key;
        EmptyKeyMatches(bf, af, path, bf[i].key);
        LookupAt(bf, i);
      }
      forall i | 0 <= i < |af|
        ensures Has(bf, af[i].key)
      {
        assert Keys(af)[i] == af[i].key;
        EmptyKeyMatches(bf, af, path, af[i].key);
      }
    }
    if Same(Obj(bf), Obj(af)) {
      forall j | 0 <= j < |keys|
        ensures DiffKey(bf, af, keys[j], path) == []
      {
        SameKeyMatches(bf, af, keys[j]);
      }
    }
  }

  /** With no change reported, every key of either side matches. */
  lemma EmptyKeyMatches(bf: seq<Entry<Value>>, af: seq<Entry<Value>>, path: string, k: string)
    requires KeysAgree(bf, af, Dedup(Keys(bf) + Keys(af)), path)
    requires Diff(Obj(bf), Obj(af), path) == []
    requires k in Keys(bf) || k in Keys(af)
    ensures KeyMatch(bf, af, k)
  {
    var keys := Dedup(Keys(bf) + Keys(af));
    DiffKeysEmpty(bf, af, keys, path);
    assert k in keys;
    var j :| 0 <= j < |keys| && keys[j] == k;
    assert DiffKey(bf, af, keys[j], path) == [];
  }

  /** Agreeing objects match at every key of either side. */
  lemma SameKeyMatches(bf: seq<Entry<Value>>, af: seq<Entry<Value>>, k: string)
    requires UniqueKeys(bf) && Same(Obj(bf), Obj(af))
    requires k in Keys(bf) + Keys(af)
    ensures KeyMatch(bf, af, k)
  {
    if k in Keys(af) {
      var i :| 0 <= i < |af| && Keys(af)[i] == k;
      assert Has(bf, af[i].key);
    }
    assert k in Keys(bf);
    var i :| 0 <= i < |bf| && Keys(bf)[i] == k;
    LookupAt(bf, i);
  }

  /** `calculateDiff` reports nothing exactly when the two states agree. */
  lemma {:induction false} DiffSelfSame(b: Value, a: Value, path: string)
    requires WellFormed(b) && WellFormed(a)
    ensures Diff(b, a, path) == [] <==> Same(b, a)
    decreases Size(b), 1
  {
    if b.Obj? && a.Obj? {
      var bf, af := b.fields, a.fields;
      var keys := Dedup(Keys(bf) + Keys(af));
      forall k | k in keys
        ensures DiffKey(bf, af, k, path) == [] <==> KeyMatch(bf, af, k)
      {
        DiffKeyEmpty(bf, af, k, path);
      }
      ObjectDiffSame(bf, af, path);
    }
  }
}
