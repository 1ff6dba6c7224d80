/** The edit walk shared by `setValue` in the page hook and `finishEdit`
    in the panel: follow the parsed path to the parent of the edited
    property, coerce the typed text to the type of the old value, and
    assign it. Assignments run in strict mode. */
module Edit {
  import opened Wrappers
  import opened Assoc
  import opened Text
  import opened Values
  import opened Paths

  /** The largest array index plus one (`2^32 - 1`); larger canonical
      numbers name plain properties. */
  const IndexLimit := 0xFFFF_FFFF

  /** The property name `target[seg]` uses: a name as is, an index as
      `String(n)`, and `"NaN"` for an index that failed to parse. */
  function PropName(s: Segment): string
  {
    match s
    case Key(k) => k
    case Index(n) => IndexText(n)
  }

  /** The array index a property name denotes: a canonical decimal
      integer in `[0, 2^32 - 1)`. */
  function ArrayIndex(name: string): (r: Option<nat>)
    ensures r.Some? ==> r.value < IndexLimit && IntToDecimal(r.value) == name
  {
    match ParseInt(name)
    case Some(k) => if 0 <= k < IndexLimit && IntToDecimal(k) == name then Some(k) else None
    case None => None
  }

  lemma ArrayIndexOfDecimal(k: nat)
    requires k < IndexLimit
    ensures ArrayIndex(IntToDecimal(k)) == Some(k)
  {
    ParseIntOfDecimal(k);
  }

  /** `target[seg]` for a target that is neither `null` nor `undefined`.
      Members inherited from prototypes are not modelled and read as
      `undefined`. */
  function Get(target: Value, seg: Segment): Value
  {
    var name := PropName(seg);
    match target
    case Obj(fields) => Lookup(fields, name).GetOr(Undef)
    case Arr(items) =>
      if name == "length" then Num(|items|)
      else (
        match ArrayIndex(name)
        case Some(k) => if k < |items| then items[k] else Undef
        case None => Undef)
    case Str(s) =>
      if name == "length" then Num(|s|)
      else (
        match ArrayIndex(name)
        case Some(k) => if k < |s| then Str([s[k]]) else Undef
        case None => Undef)
    case _ => Undef
  }

  /** Targets whose assigned property `Get` reads back: any property of an
      object, and the indices and `length` of an array. */
  predicate Holds(target: Value, seg: Segment)
  {
    target.Obj? || (target.Arr? && (PropName(seg) == "length" || ArrayIndex(PropName(seg)).Some?))
  }

  /** `target[seg] = v` in strict mode; `None` is the `TypeError` of an
      assignment to a primitive or to `null` / `undefined`, or the
      `RangeError` of an invalid array length. A named non-index property
      of an array and any property of a function are not part of the
      value tree, so those assignments leave the target as it is. */
  function Put(target: Value, seg: Segment, v: Value): (r: Option<Value>)
    ensures target.Obj? ==> r.Some?
    ensures !IsObjectLike(target) && !target.Fn? ==> r.None?
    ensures r.Some? ==> IsObjectLike(r.value) || r.value.Fn?
    ensures r.Some? && Holds(target, seg) ==> Get(r.value, seg) == Landed(target, seg, v)
    ensures r.Some? && target.Obj? ==>
      && r.value.Obj?
      && forall k :: k != PropName(seg) ==> Lookup(r.value.fields, k) == Lookup(target.fields, k)
  {
    var name := PropName(seg);
    match target
    case Obj(fields) => Some(Obj(Update(fields, name, v)))
    case Arr(items) =>
      PutItemReadsBack(items, seg, v);
      PutItem(items, name, v)
    case Fn => Some(Fn)
    case _ => None
  }

  /** An index or `length` of an array, once assigned, reads back what
      landed there. */
  lemma PutItemReadsBack(items: seq<Value>, seg: Segment, v: Value)
    ensures var r := PutItem(items, PropName(seg), v);
      r.Some? && Holds(Arr(items), seg) ==> Get(r.value, seg) == Landed(Arr(items), seg, v)
  {
  }

  /** `array[name] = v`: setting `length` truncates or pads with holes
      (`undefined`) and throws `RangeError` unless the value converts to a
      valid length; an index past the end pads with holes. */
  function PutItem(items: seq<Value>, name: string, v: Value): (r: Option<Value>)
    ensures r.Some? ==> r.value.Arr?
    ensures name == "length" ==> (r.Some? <==> AsLength(v).Some?)
    ensures r.Some? && name == "length" ==> AsLength(v) == Some(|r.value.items|)
    ensures r.Some? && name != "length" && ArrayIndex(name).Some? ==>
      var k := ArrayIndex(name).value;
      k < |r.value.items| && r.value.items[k] == v
  {
    if name == "length" then
      match AsLength(v)
      case Some(n) => Some(Arr(Resized(items, n)))
      case None => None
    else
      match ArrayIndex(name)
      case Some(k) => Some(Arr(Placed(items, k, v)))
      case None => Some(Arr(items))
  }

  /** The length `array.length = v` sets: `ToUint32(v)`, provided it
      equals `ToNumber(v)` (otherwise a `RangeError`). A number must be a
      whole number below `2^32`; `true` is 1, `false` and `null` are 0; a
      string is read with surrounding white space dropped, and blank text
      is 0. */
  function AsLength(v: Value): (r: Option<nat>)
    ensures r.Some? ==> r.value < 0x1_0000_0000
  {
    match v
    case Num(n) => if 0 <= n < 0x1_0000_0000 then Some(n) else None
    case Bool(b) => Some(if b then 1 else 0)
    case Null => Some(0)
    case Str(s) =>
      var t := Trim(s);
      if t == "" then Some(0)
      else if AllDigits(t) && DigitsValue(t) < 0x1_0000_0000 then Some(DigitsValue(t))
      else None
    case _ => None
  }

  /** Blank text sets an array's length to 0, whatever white space it
      holds. */
  lemma BlankLength(s: string)
    requires forall i :: 0 <= i < |s| ==> IsSpace(s[i])
    ensures AsLength(Str(s)) == Some(0)
    ensures forall items: seq<Value> :: PutItem(items, "length", Str(s)) == Some(Arr([]))
  {
    forall items: seq<Value> ensures PutItem(items, "length", Str(s)) == Some(Arr([])) {
      assert Resized(items, 0) == [];
    }
  }

  /** Every decimal length, written out, sets that length. */
  lemma DecimalLength(k: nat)
    requires k < 0x1_0000_0000
    ensures AsLength(Str(IntToDecimal(k))) == Some(k)
  {
    TrimDigits(NatToDigits(k));
  }

  /** What property `seg` of `target` reads after `v` is assigned to it:
      the value itself, except that an array's `length` reads the length
      the value converts to. */
  function Landed(target: Value, seg: Segment, v: Value): Value
  {
    if target.Arr? && PropName(seg) == "length" && AsLength(v).Some? then Num(AsLength(v).value) else v
  }

  /** `array.length = n`: cut back, or padded with holes. */
  function Resized(items: seq<Value>, n: nat): (r: seq<Value>)
    ensures |r| == n
    ensures n <= |items| ==> r == items[..n]
    ensures n > |items| ==> r[..|items|] == items
  {
    if n <= |items| then items[..n] else items + seq(n - |items|, _ => Undef)
  }

  /** `array[k] = v`: past the end, holes pad the gap. */
  function Placed(items: seq<Value>, k: nat, v: Value): (r: seq<Value>)
    ensures |r| == if k < |items| then |items| else k + 1
    ensures r[k] == v
    ensures forall i :: 0 <= i < |items| && i != k ==> r[i] == items[i]
  {
    if k < |items| then items[k := v] else items + seq(k - |items|, _ => Undef) + [v]
  }

  /** Converts the typed text to the type of the value it replaces: a
      number when the old value is a number and the text parses (the
      text itself otherwise), `text === 'true'` for a boolean, and the
      text for anything else. `parseNumber` is `parseFloat`, with `None`
      for `NaN`. */
  function Coerce(prior: Value, raw: string, parseNumber: string -> Option<int>): (r: Value)
    ensures prior.Num? && parseNumber(raw).Some? ==> r == Num(parseNumber(raw).value)
    ensures prior.Bool? ==> r == Bool(raw == "true")
    ensures !(prior.Num? && parseNumber(raw).Some?) && !prior.Bool? ==> r == Str(raw)
  {
    match prior
    case Num(_) => (
      match parseNumber(raw)
      case Some(n) => Num(n)
      case None => Str(raw))
    case Bool(_) => Bool(raw == "true")
    case _ => Str(raw)
  }

  datatype Outcome =
    | Aborted           // a `null` / `undefined` on the way: nothing assigned
    | Threw             // the assignment threw and was caught
    | Written(root: Value)

  /** The value `segs` reaches from `v`, one property read at a time. */
  function Read(v: Value, segs: seq<Segment>): Value
    decreases |segs|
  {
    if |segs| == 0 then v else Read(Get(v, segs[0]), segs[1..])
  }

  /** Walks `through` from `target` (giving up at a `null` or
      `undefined`, tested before each step and once more at the end),
      then assigns the coerced text to property `last` of the value
      reached. The result is the new `target`. */
  function WriteAt(target: Value, through: seq<Segment>, last: Segment, raw: string,
                   parseNumber: string -> Option<int>): (r: Outcome)
    ensures r.Aborted? <==> exists i :: 0 <= i <= |through| && Nullish(Read(target, through[..i]))
    ensures r.Written? ==> IsObjectLike(r.root) || r.root.Fn?
    ensures r.Written? && target.Obj? ==>
      && r.root.Obj?
      && forall k :: k != PropName(if |through| == 0 then last else through[0]) ==>
           Lookup(r.root.fields, k) == Lookup(target.fields, k)
    decreases |through|
  {
    if Nullish(target) then
      assert Read(target, through[..0]) == target;
      Aborted
    else if |through| == 0 then
      match Put(target, last, Coerce(Get(target, last), raw, parseNumber))
      case Some(t) => Written(t)
      case None => Threw
    else
      var child := Get(target, through[0]);
      var r := WriteAt(child, through[1..], last, raw, parseNumber);
      ReadPrefixes(target, through);
      match r
      case Written(c) => (
        match Put(target, through[0], c)
        case Some(t) => Written(t)
        case None => Threw)
      case _ => r
  }

  /** Only an object, array or function can be written through: `null`
      and `undefined` abort the walk, and any other primitive throws. */
  lemma WrittenThroughObject(target: Value, through: seq<Segment>, last: Segment, raw: string,
                             parseNumber: string -> Option<int>)
    requires WriteAt(target, through, last, raw, parseNumber).Written?
    ensures IsObjectLike(target) || target.Fn?
  {
    if |through| > 0 {
      var c := WriteAt(Get(target, through[0]), through[1..], last, raw, parseNumber);
      assert c.Written? && Put(target, through[0], c.root).Some?;
    }
  }

  lemma ReadPrefixes(target: Value, through: seq<Segment>)
    requires |through| > 0 && !Nullish(target)
    ensures (exists i :: 0 <= i <= |through| && Nullish(Read(target, through[..i])))
        <==> (exists i :: 0 <= i <= |through[1..]| && Nullish(Read(Get(target, through[0]), through[1..][..i])))
  {
    forall i | 1 <= i <= |through|
      ensures Read(target, through[..i]) == Read(Get(target, through[0]), through[1..][..i - 1])
    {
      assert through[..i][1..] == through[1..][..i - 1];
    }
    assert Read(target, through[..0]) == target;
    forall i | 0 <= i <= |through[1..]| && Nullish(Read(Get(target, through[0]), through[1..][..i]))
      ensures Nullish(Read(target, through[..i + 1]))
    {
    }
  }

  /** Reading a property of a primitive or a function never yields an
      array or an object. */
  lemma {:induction false} ReadObjectLike(v: Value, segs: seq<Segment>)
    requires IsObjectLike(Read(v, segs))
    ensures IsObjectLike(v)
    ensures |segs| > 0 ==> Holds(v, segs[0])
    decreases |segs|
  {
    if |segs| > 0 {
      ReadObjectLike(Get(v, segs[0]), segs[1..]);
    }
  }

  /** After a successful walk, the path reads back the coerced text,
      provided the assigned property is one the value tree holds; an
      array's `length` reads back the length the text converts to. */
  lemma {:induction false} WriteReadBack(target: Value, through: seq<Segment>, last: Segment, raw: string,
                                         parseNumber: string -> Option<int>)
    requires WriteAt(target, through, last, raw, parseNumber).Written?
    requires Holds(Read(target, through), last)
    ensures Read(WriteAt(target, through, last, raw, parseNumber).root, through + [last])
         == Landed(Read(target, through), last, Coerce(Read(target, through + [last]), raw, parseNumber))
    decreases |through|
  {
    if |through| == 0 {
      assert through + [last] == [last];
      WriteLeaf(target, last, raw, parseNumber);
    } else {
      var child := Get(target, through[0]);
      assert (through + [last])[1..] == through[1..] + [last];
      assert Read(target, through) == Read(child, through[1..]);
      WriteStep(target, through, last, raw, parseNumber);
      WriteReadBack(child, through[1..], last, raw, parseNumber);
    }
  }

  /** The assignment at the end of the walk. */
  lemma WriteLeaf(target: Value, last: Segment, raw: string, parseNumber: string -> Option<int>)
    requires WriteAt(target, [], last, raw, parseNumber).Written?
    requires Holds(target, last)
    ensures Read(WriteAt(target, [], last, raw, parseNumber).root, [last])
         == Landed(target, last, Coerce(Get(target, last), raw, parseNumber))
  {
  }

  /** One step of the walk: the new parent holds the child's new value
      at the walked key, so the rest of the path reads on from there. */
  lemma WriteStep(target: Value, through: seq<Segment>, last: Segment, raw: string,
                  parseNumber: string -> Option<int>)
    requires |through| > 0 && WriteAt(target, through, last, raw, parseNumber).Written?
    requires Holds(Read(target, through), last)
    ensures var c := WriteAt(Get(target, through[0]), through[1..], last, raw, parseNumber);
      && c.Written?
      && Read(WriteAt(target, through, last, raw, parseNumber).root, through + [last])
         == Read(c.root, through[1..] + [last])
  {
    var r := WriteAt(target, through, last, raw, parseNumber).root;
    var c := WriteAt(Get(target, through[0]), through[1..], last, raw, parseNumber);
    ChildWritten(target, through, last, raw, parseNumber);
    assert (through + [last])[1..] == through[1..] + [last];
    ReadObjectLike(target, through);
    PutReadsBack(target, through[0], c.root);
  }

  /** A walk that succeeds below `target` succeeded in the child first,
      and the new `target` is the child's new value put in place. */
  lemma ChildWritten(target: Value, through: seq<Segment>, last: Segment, raw: string,
                     parseNumber: string -> Option<int>)
    requires |through| > 0 && WriteAt(target, through, last, raw, parseNumber).Written?
    ensures var c := WriteAt(Get(target, through[0]), through[1..], last, raw, parseNumber);
      && c.Written?
      && Put(target, through[0], c.root) == Some(WriteAt(target, through, last, raw, parseNumber).root)
  {
  }

  /** An object, array or function assigned to a property the value tree
      holds reads back as itself. */
  lemma PutReadsBack(target: Value, seg: Segment, c: Value)
    requires Put(target, seg, c).Some? && Holds(target, seg) && (IsObjectLike(c) || c.Fn?)
    ensures Get(Put(target, seg, c).value, seg) == c
  {
    assert AsLength(c).None?;
  }

  /** The keys `setValue` and `finishEdit` walk (all but the last, after
      a leading key equal to the store name) and the key they assign
      (the last one; `undefined` when the path has no key). */
  function Walked(storeName: string, keys: seq<Segment>): (r: (seq<Segment>, Segment))
    ensures var rel := if |keys| > 0 && keys[0] == Key(storeName) then keys[1..] else keys;
      && (|rel| > 0 ==> r.0 + [r.1] == rel)
      && (|rel| == 0 && |keys| > 0 ==> r == ([], Key(storeName)))
    ensures |keys| == 0 ==> r == ([], Key("undefined"))
  {
    var start := if |keys| > 0 && keys[0] == Key(storeName) then 1 else 0;
    if |keys| == 0 then ([], Key("undefined"))
    else if |keys| - 1 <= start then ([], keys[|keys| - 1])
    else
      assert keys[start..|keys| - 1] + [keys[|keys| - 1]] == keys[start..];
      (keys[start..|keys| - 1], keys[|keys| - 1])
  }

  /** The edit of store value `store` at `path` (relative to the store or
      starting with its name) with the typed text `raw`. */
  function EditStore(store: Value, storeName: string, path: string, raw: string,
                     parseNumber: string -> Option<int>): Outcome
  {
    var w := Walked(storeName, ParsePath(path));
    WriteAt(store, w.0, w.1, raw, parseNumber)
  }

  /** A path may name its store first or leave it out. */
  lemma StoreNameOptional(store: Value, storeName: string, path: string, raw: string,
                          parseNumber: string -> Option<int>)
    requires storeName != "" && '.' !in storeName && '[' !in storeName
    requires |ParsePath(path)| > 0 && ParsePath(path)[0] != Key(storeName)
    ensures EditStore(store, storeName, storeName + "." + path, raw, parseNumber)
         == EditStore(store, storeName, path, raw, parseNumber)
  {
    ParseName(storeName, "." + path, "");
    assert "" + storeName == storeName;
    assert storeName + "." + path == storeName + ("." + path);
    assert Flush(storeName) == [Key(storeName)];
    assert ("." + path)[1..] == path;
    assert ("." + path)[0..] == "." + path;
    ParseStepDot("." + path, 0, storeName);
    assert ParsePath(storeName + "." + path) == [Key(storeName)] + ParsePath(path);
  }

  /** Editing a leaf of the state tree: the path the tree built for the
      node `segs` below store `storeName`, once written, reads back the
      coerced text at exactly that node. */
  lemma TreeEditWritesNode(store: Value, storeName: string, segs: seq<Segment>, raw: string,
                           parseNumber: string -> Option<int>)
    requires Addressable([Key(storeName)] + segs) && |segs| > 0
    requires EditStore(store, storeName, FormatPath([Key(storeName)] + segs), raw, parseNumber).Written?
    requires Holds(Read(store, segs[..|segs| - 1]), segs[|segs| - 1])
    ensures Read(EditStore(store, storeName, FormatPath([Key(storeName)] + segs), raw, parseNumber).root, segs)
         == Landed(Read(store, segs[..|segs| - 1]), segs[|segs| - 1], Coerce(Read(store, segs), raw, parseNumber))
  {
    var keys := [Key(storeName)] + segs;
    FormatThenParse(keys);
    assert keys[1..] == segs;
    var through, last := segs[..|segs| - 1], segs[|segs| - 1];
    assert Walked(storeName, keys) == (through, last);
    assert through + [last] == segs;
    WriteReadBack(store, through, last, raw, parseNumber);
  }
}
