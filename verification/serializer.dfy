/** The bounded serializer of the in-page hook (`serialize(obj, depth)`),
    used for a store when `mobx.toJS` is unavailable. */
module Serializer {
  import opened Assoc
  import opened Values

  /** Deeper levels are replaced by `MaxDepthMarker`. */
  const MaxDepth := 5
  /** Arrays keep at most this many leading items. */
  const MaxItems := 50
  /** Objects look at most at this many leading keys. */
  const MaxKeys := 100
  const MaxDepthMarker := "[Max Depth]"

  /** Keys starting with `$` or `_` are treated as internal and skipped. */
  predicate IsPrivateKey(k: string)
  {
    |k| > 0 && (k[0] == '$' || k[0] == '_')
  }

  /** A member the object walk keeps (neither internal nor a function). */
  predicate Kept(e: Entry<Value>)
  {
    !IsPrivateKey(e.key) && !e.val.Fn?
  }

  /** Nesting height of a value: leaves have height 0. */
  function Height(v: Value): nat
  {
    match v
    case Arr(items) => 1 + ItemsHeight(items)
    case Obj(fields) => 1 + FieldsHeight(fields)
    case _ => 0
  }

  function ItemsHeight(items: seq<Value>): nat
  {
    if |items| == 0 then 0
    else
      var h, rest := Height(items[0]), ItemsHeight(items[1..]);
      if h < rest then rest else h
  }

  function FieldsHeight(fields: seq<Entry<Value>>): nat
  {
    if |fields| == 0 then 0
    else
      var h, rest := Height(fields[0].val), FieldsHeight(fields[1..]);
      if h < rest then rest else h
  }

  /** The caps the serializer promises, at every level of its output:
      arrays of at most 50 items, objects of at most 100 members, and no
      internal key or function-valued member in any object. */
  predicate Capped(v: Value)
  {
    match v
    case Arr(items) =>
      && |items| <= MaxItems
      && forall i :: 0 <= i < |items| ==> Capped(items[i])
    case Obj(fields) =>
      && |fields| <= MaxKeys
      && forall i :: 0 <= i < |fields| ==> Kept(fields[i]) && Capped(fields[i].val)
    case _ => true
  }

  /** `serialize(obj, depth)`. A function reaching the walk is returned as
      it is, because the `typeof obj !== 'object'` test comes before the
      function test; a function member of an object is skipped. */
  function Serialize(v: Value, depth: int): (r: Value)
    ensures depth > MaxDepth ==> r == Str(MaxDepthMarker)
    ensures Capped(r)
    ensures depth <= MaxDepth ==> Height(r) <= MaxDepth + 1 - depth
    ensures depth > MaxDepth ==> Height(r) == 0
    ensures depth <= MaxDepth && v.Arr? ==>
      && r.Arr?
      && |r.items| == (if |v.items| < MaxItems then |v.items| else MaxItems)
      && forall i :: 0 <= i < |r.items| ==> r.items[i] == Serialize(v.items[i], depth + 1)
    ensures depth <= MaxDepth && v.Obj? ==>
      && r.Obj?
      && forall k :: Has(r.fields, k) <==> KeptAmong(v.fields, MaxKeys, k)
    ensures depth <= MaxDepth && !IsObjectLike(v) ==> r == v
  {
    if depth > MaxDepth then Str(MaxDepthMarker)
    else match v
      case Arr(items) =>
        var n := if |items| < MaxItems then |items| else MaxItems;
        var out := seq(n, i requires 0 <= i < n => Serialize(items[i], depth + 1));
        ItemsHeightBound(out, MaxDepth - depth);
        Arr(out)
      case Obj(fields) =>
        Obj(SerializeFields(fields, MaxKeys, depth))
      case _ => v
  }

  /** Key `k` belongs to a member among the first `budget` of `fields`
      that the object walk keeps. */
  predicate KeptAmong(fields: seq<Entry<Value>>, budget: nat, k: string)
  {
    exists i :: 0 <= i < |fields| && i < budget && fields[i].key == k && Kept(fields[i])
  }

  lemma KeptAmongCons(fields: seq<Entry<Value>>, budget: nat)
    requires |fields| > 0 && budget > 0
    ensures forall k :: KeptAmong(fields, budget, k) <==>
      (fields[0].key == k && Kept(fields[0])) || KeptAmong(fields[1..], budget - 1, k)
  {
    forall k | KeptAmong(fields, budget, k)
      ensures (fields[0].key == k && Kept(fields[0])) || KeptAmong(fields[1..], budget - 1, k)
    {
      var i :| 0 <= i < |fields| && i < budget && fields[i].key == k && Kept(fields[i]);
      if i > 0 {
        assert fields[1..][i - 1] == fields[i];
      }
    }
    forall k | KeptAmong(fields[1..], budget - 1, k)
      ensures KeptAmong(fields, budget, k)
    {
      var i :| 0 <= i < |fields[1..]| && i < budget - 1 && fields[1..][i].key == k && Kept(fields[1..][i]);
      assert fields[i + 1] == fields[1..][i];
    }
    forall k | fields[0].key == k && Kept(fields[0])
      ensures KeptAmong(fields, budget, k)
    {
      assert fields[0].key == k;
    }
  }

  /** The object walk over the first `budget` members of `fields`. */
  function SerializeFields(fields: seq<Entry<Value>>, budget: nat, depth: int): (r: seq<Entry<Value>>)
    requires depth <= MaxDepth
    ensures |r| <= budget
    ensures forall i :: 0 <= i < |r| ==> Kept(r[i]) && Capped(r[i].val)
    ensures FieldsHeight(r) <= MaxDepth - depth
    ensures forall k :: Has(r, k) <==> KeptAmong(fields, budget, k)
  {
    if |fields| == 0 || budget == 0 then []
    else
      var rest := SerializeFields(fields[1..], budget - 1, depth);
      var f := fields[0];
      KeptAmongCons(fields, budget);
      if !Kept(f) then rest
      else
        var r := [Entry(f.key, Serialize(f.val, depth + 1))] + rest;
        KeysCons(r);
        assert r[1..] == rest;
        r
  }

  /** The members among the first `budget` of `fields` that the object
      walk keeps, in their original order. */
  function KeptMembers(fields: seq<Entry<Value>>, budget: nat): (r: seq<Entry<Value>>)
    ensures |r| <= budget && |r| <= |fields|
    ensures forall i :: 0 <= i < |r| ==> Kept(r[i]) && r[i] in fields
  {
    if |fields| == 0 || budget == 0 then []
    else
      var rest := KeptMembers(fields[1..], budget - 1);
      assert forall e :: e in rest ==> e in fields;
      if Kept(fields[0]) then [fields[0]] + rest else rest
  }

  /** The object walk yields, in order, each kept member under its own key
      with its value serialized one level deeper. */
  lemma {:induction false} SerializeFieldsMembers(fields: seq<Entry<Value>>, budget: nat, depth: int)
    requires depth <= MaxDepth
    ensures SerializedMembers(SerializeFields(fields, budget, depth), KeptMembers(fields, budget), depth)
    decreases |fields|
  {
    if |fields| > 0 && budget > 0 {
      SerializeFieldsMembers(fields[1..], budget - 1, depth);
      if Kept(fields[0]) {
        MembersCons(fields[0], SerializeFields(fields[1..], budget - 1, depth),
                    KeptMembers(fields[1..], budget - 1), depth);
      }
    }
  }

  /** `r` holds the members of `kept` in order, each serialized one level
      deeper. */
  predicate SerializedMembers(r: seq<Entry<Value>>, kept: seq<Entry<Value>>, depth: int)
  {
    |r| == |kept| && forall i :: 0 <= i < |r| ==> r[i] == Entry(kept[i].key, Serialize(kept[i].val, depth + 1))
  }

  lemma MembersCons(e: Entry<Value>, r: seq<Entry<Value>>, kept: seq<Entry<Value>>, depth: int)
    requires SerializedMembers(r, kept, depth)
    ensures SerializedMembers([Entry(e.key, Serialize(e.val, depth + 1))] + r, [e] + kept, depth)
  {
    var x := Entry(e.key, Serialize(e.val, depth + 1));
    forall i | 0 < i < |r| + 1
      ensures ([x] + r)[i] == Entry(([e] + kept)[i].key, Serialize(([e] + kept)[i].val, depth + 1))
    {
      assert ([x] + r)[i] == r[i - 1] && ([e] + kept)[i] == kept[i - 1];
    }
  }

  /** `serialize` of an object below the depth limit: the kept members
      among its first 100 keys, in source order, each value serialized one
      level deeper, and nothing else. */
  lemma SerializeObjectMembers(v: Value, depth: int)
    requires depth <= MaxDepth && v.Obj?
    ensures var r, kept := Serialize(v, depth), KeptMembers(v.fields, MaxKeys);
      && r.Obj? && |r.fields| == |kept|
      && forall i :: 0 <= i < |kept| ==> r.fields[i] == Entry(kept[i].key, Serialize(kept[i].val, depth + 1))
  {
    SerializeFieldsMembers(v.fields, MaxKeys, depth);
  }

  lemma {:induction false} ItemsHeightBound(items: seq<Value>, h: nat)
    requires forall i :: 0 <= i < |items| ==> Height(items[i]) <= h
    ensures ItemsHeight(items) <= h
    decreases |items|
  {
    if |items| > 0 {
      ItemsHeightBound(items[1..], h);
    }
  }

  /** Serializing twice at the same depth changes nothing: every cap the
      first pass applies is already met, and the depth marker is a string
      that the second pass replaces by itself. */
  lemma {:induction false} SerializeIdempotent(v: Value, depth: int)
    ensures Serialize(Serialize(v, depth), depth) == Serialize(v, depth)
    decreases v
  {
    if depth <= MaxDepth {
      match v
      case Arr(items) =>
        var r := Serialize(v, depth);
        var rr := Serialize(r, depth);
        assert |rr.items| == |r.items|;
        forall i | 0 <= i < |r.items|
          ensures rr.items[i] == r.items[i]
        {
          SerializeIdempotent(items[i], depth + 1);
        }
      case Obj(fields) =>
        SerializeFieldsIdempotent(fields, MaxKeys, depth);
      case _ =>
    }
  }

  lemma {:induction false} SerializeFieldsIdempotent(fields: seq<Entry<Value>>, budget: nat, depth: int)
    requires depth <= MaxDepth
    requires budget <= MaxKeys
    ensures SerializeFields(SerializeFields(fields, budget, depth), MaxKeys, depth)
         == SerializeFields(fields, budget, depth)
    decreases fields, budget
  {
    if |fields| > 0 && budget > 0 {
      var f := fields[0];
      SerializeFieldsIdempotent(fields[1..], budget - 1, depth);
      var rest := SerializeFields(fields[1..], budget - 1, depth);
      if Kept(f) {
        var r := SerializeFields(fields, budget, depth);
        SerializeIdempotent(f.val, depth + 1);
        assert r[1..] == rest;
        assert Kept(r[0]);
        SerializeFieldsBudget(rest, MaxKeys - 1, MaxKeys, depth);
      }
    }
  }

  /** Once a member list is within the cap, a larger budget walks it the
      same way. */
  lemma {:induction false} SerializeFieldsBudget(fields: seq<Entry<Value>>, b1: nat, b2: nat, depth: int)
    requires depth <= MaxDepth
    requires |fields| <= b1 <= b2
    ensures SerializeFields(fields, b1, depth) == SerializeFields(fields, b2, depth)
    decreases |fields|
  {
    if |fields| > 0 {
      SerializeFieldsBudget(fields[1..], b1 - 1, b2 - 1, depth);
    }
  }
}
