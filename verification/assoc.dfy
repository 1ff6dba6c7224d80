/** Insertion-ordered, string-keyed association lists.

    They model both a JavaScript `Map<string, V>` and the own enumerable
    properties of a plain object: `set` on an existing key keeps its
    position, a new key is appended, `delete` removes it, and lookups see
    the first entry with the key. */
module Assoc {
  import opened Wrappers

  datatype Entry<+V> = Entry(key: string, val: V)

  function Keys<V>(m: seq<Entry<V>>): (ks: seq<string>)
    ensures |ks| == |m|
    ensures forall i :: 0 <= i < |m| ==> ks[i] == m[i].key
  {
    seq(|m|, i requires 0 <= i < |m| => m[i].key)
  }

  lemma KeysCons<V>(m: seq<Entry<V>>)
    requires |m| > 0
    ensures Keys(m) == [m[0].key] + Keys(m[1..])
  {
  }

  /** `m.has(k)` / `k in obj` for own properties. */
  predicate Has<V>(m: seq<Entry<V>>, k: string)
  {
    k in Keys(m)
  }

  /** No key occurs twice, as for every JavaScript Map or object. */
  predicate Distinct<T(==)>(ks: seq<T>)
  {
    forall i, j :: 0 <= i < j < |ks| ==> ks[i] != ks[j]
  }

  predicate UniqueKeys<V>(m: seq<Entry<V>>)
  {
    Distinct(Keys(m))
  }

  /** `m.get(k)` / `obj[k]`: the value of the first entry with key `k`. */
  function Lookup<V>(m: seq<Entry<V>>, k: string): (r: Option<V>)
    ensures r.Some? <==> Has(m, k)
    ensures r.Some? ==> Entry(k, r.value) in m
  {
    if |m| == 0 then None
    else
      KeysCons(m);
      if m[0].key == k then Some(m[0].val)
      else Lookup(m[1..], k)
  }

  /** `m.set(k, v)` / `obj[k] = v`. */
  function Update<V>(m: seq<Entry<V>>, k: string, v: V): (r: seq<Entry<V>>)
    ensures Lookup(r, k) == Some(v)
    ensures forall k' :: k' != k ==> Lookup(r, k') == Lookup(m, k')
    ensures Has(m, k) ==> Keys(r) == Keys(m)
    ensures !Has(m, k) ==> Keys(r) == Keys(m) + [k]
  {
    if |m| == 0 then
      assert Keys([Entry(k, v)]) == [k];
      [Entry(k, v)]
    else if m[0].key == k then
      UpdateHead(m, k, v);
      [Entry(k, v)] + m[1..]
    else
      var rest := Update(m[1..], k, v);
      UpdateTail(m, k, v, rest);
      [m[0]] + rest
  }

  /** Overwriting the first entry keeps every key in place. */
  lemma UpdateHead<V>(m: seq<Entry<V>>, k: string, v: V)
    requires |m| > 0 && m[0].key == k
    ensures var r := [Entry(k, v)] + m[1..];
      && Lookup(r, k) == Some(v)
      && (forall k' :: k' != k ==> Lookup(r, k') == Lookup(m, k'))
      && Has(m, k) && Keys(r) == Keys(m)
  {
    var r := [Entry(k, v)] + m[1..];
    KeysCons(m);
    KeysCons(r);
    assert r[1..] == m[1..];
  }

  /** Updating the tail behind a first entry with another key. */
  lemma UpdateTail<V>(m: seq<Entry<V>>, k: string, v: V, rest: seq<Entry<V>>)
    requires |m| > 0 && m[0].key != k
    requires Lookup(rest, k) == Some(v)
    requires forall k' :: k' != k ==> Lookup(rest, k') == Lookup(m[1..], k')
    requires Has(m[1..], k) ==> Keys(rest) == Keys(m[1..])
    requires !Has(m[1..], k) ==> Keys(rest) == Keys(m[1..]) + [k]
    ensures var r := [m[0]] + rest;
      && Lookup(r, k) == Some(v)
      && (forall k' :: k' != k ==> Lookup(r, k') == Lookup(m, k'))
      && (Has(m, k) ==> Keys(r) == Keys(m))
      && (!Has(m, k) ==> Keys(r) == Keys(m) + [k])
  {
    var r := [m[0]] + rest;
    forall k' | k' != k ensures Lookup(r, k') == Lookup(m, k') {
      TailLookup(m, rest, k');
    }
    TailLookup(m, rest, k);
    TailKeys(m, k, rest);
  }

  /** A lookup behind a new first entry. */
  lemma TailLookup<V>(m: seq<Entry<V>>, rest: seq<Entry<V>>, k: string)
    requires |m| > 0
    ensures Lookup([m[0]] + rest, k) == if m[0].key == k then Some(m[0].val) else Lookup(rest, k)
    ensures Lookup(m, k) == if m[0].key == k then Some(m[0].val) else Lookup(m[1..], k)
  {
    var r := [m[0]] + rest;
    assert r[1..] == rest;
    LookupCons(r, k);
    LookupCons(m, k);
  }

  lemma TailKeys<V>(m: seq<Entry<V>>, k: string, rest: seq<Entry<V>>)
    requires |m| > 0 && m[0].key != k
    requires Has(m[1..], k) ==> Keys(rest) == Keys(m[1..])
    requires !Has(m[1..], k) ==> Keys(rest) == Keys(m[1..]) + [k]
    ensures Has(m, k) ==> Keys([m[0]] + rest) == Keys(m)
    ensures !Has(m, k) ==> Keys([m[0]] + rest) == Keys(m) + [k]
  {
    ConsKeys(m, rest);
    assert Has(m, k) <==> Has(m[1..], k) by {
      assert Keys(m) == [m[0].key] + Keys(m[1..]);
    }
    if !Has(m[1..], k) {
      ConsSnoc(m[0].key, Keys(m[1..]), k);
    }
  }

  /** A lookup either stops at the first entry or goes on to the rest. */
  lemma LookupCons<V>(m: seq<Entry<V>>, k: string)
    requires |m| > 0
    ensures Lookup(m, k) == if m[0].key == k then Some(m[0].val) else Lookup(m[1..], k)
  {
  }

  lemma ConsKeys<V>(m: seq<Entry<V>>, rest: seq<Entry<V>>)
    requires |m| > 0
    ensures Keys([m[0]] + rest) == [m[0].key] + Keys(rest)
    ensures Keys(m) == [m[0].key] + Keys(m[1..])
    ensures Has(m, m[0].key)
  {
    var r := [m[0]] + rest;
    KeysCons(r);
    assert r[1..] == rest;
    KeysCons(m);
  }

  lemma ConsSnoc<T>(x: T, a: seq<T>, y: T)
    ensures [x] + (a + [y]) == ([x] + a) + [y]
  {
  }

  /** `m.delete(k)`. */
  function Delete<V>(m: seq<Entry<V>>, k: string): (r: seq<Entry<V>>)
    ensures Lookup(r, k) == None
    ensures forall k' :: k' != k ==> Lookup(r, k') == Lookup(m, k')
  {
    if |m| == 0 then []
    else
      var rest := Delete(m[1..], k);
      if m[0].key == k then rest
      else
        var r := [m[0]] + rest;
        assert r[1..] == rest;
        r
  }

  /** Deletes every key of `ks`, as `ks.forEach(k => m.delete(k))`. */
  function DeleteAll<V>(m: seq<Entry<V>>, ks: seq<string>): (r: seq<Entry<V>>)
    ensures forall k :: k in ks ==> Lookup(r, k) == None
    ensures forall k :: k !in ks ==> Lookup(r, k) == Lookup(m, k)
    decreases |ks|
  {
    if |ks| == 0 then m else DeleteAll(Delete(m, ks[0]), ks[1..])
  }

  lemma UniqueTail<V>(m: seq<Entry<V>>)
    requires UniqueKeys(m) && |m| > 0
    ensures UniqueKeys(m[1..]) && !Has(m[1..], m[0].key)
  {
    forall a, b | 0 <= a < b < |m[1..]| ensures Keys(m[1..])[a] != Keys(m[1..])[b] {
      assert Keys(m)[a + 1] != Keys(m)[b + 1];
    }
    forall a | 0 <= a < |m[1..]| ensures Keys(m[1..])[a] != m[0].key {
      assert Keys(m)[0] != Keys(m)[a + 1];
    }
  }

  /** With distinct keys, each entry is what a lookup of its key finds. */
  lemma {:induction false} LookupAt<V>(m: seq<Entry<V>>, i: nat)
    requires UniqueKeys(m) && i < |m|
    ensures Lookup(m, m[i].key) == Some(m[i].val)
  {
    if i > 0 {
      assert Keys(m)[0] != Keys(m)[i];
      assert UniqueKeys(m[1..]) by {
        forall a, b | 0 <= a < b < |m[1..]| ensures Keys(m[1..])[a] != Keys(m[1..])[b] {
          assert Keys(m)[a + 1] != Keys(m)[b + 1];
        }
      }
      LookupAt(m[1..], i - 1);
    }
  }

  lemma UpdateKeepsUnique<V>(m: seq<Entry<V>>, k: string, v: V)
    requires UniqueKeys(m)
    ensures UniqueKeys(Update(m, k, v))
  {
  }

  /** Setting a key the list lacks appends it. */
  lemma {:induction false} UpdateAppends<V>(m: seq<Entry<V>>, k: string, v: V)
    requires !Has(m, k)
    ensures Update(m, k, v) == m + [Entry(k, v)]
    decreases |m|
  {
    if |m| > 0 {
      var t := m[1..];
      assert !Has(t, k) && m[0].key != k by {
        KeysCons(m);
      }
      UpdateCons(m, k, v);
      UpdateAppends(t, k, v);
      ConsAppend(m, Update(m, k, v), Update(t, k, v), Entry(k, v));
    }
  }

  lemma ConsAppend<T>(m: seq<T>, a: seq<T>, b: seq<T>, x: T)
    requires |m| > 0 && a == [m[0]] + b && b == m[1..] + [x]
    ensures a == m + [x]
  {
    assert [m[0]] + (m[1..] + [x]) == m + [x];
  }

  lemma UpdateCons<V>(m: seq<Entry<V>>, k: string, v: V)
    requires |m| > 0 && m[0].key != k
    ensures Update(m, k, v) == [m[0]] + Update(m[1..], k, v)
  {
  }

  /** In a list with distinct keys, no key reappears later on. */
  lemma PrefixLacksNext<V>(m: seq<Entry<V>>, i: nat)
    requires UniqueKeys(m) && i < |m|
    ensures !Has(m[..i], m[i].key)
  {
    forall t | 0 <= t < i ensures Keys(m[..i])[t] != m[i].key {
      assert Keys(m)[t] != Keys(m)[i];
    }
  }
}
