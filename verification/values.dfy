/** JavaScript values as the tool sees them after `mobx.toJS`, and their
    JSON form.

    `Value` is an acyclic tree: objects are insertion-ordered property
    lists, numbers are integers, and a function is the opaque `Fn`.
    `Json` is what `JSON.stringify` can write; `ToJson` says which JSON
    value a `Value` becomes, so that "the two values stringify alike" is
    equality of their JSON forms. */
module Values {
  import opened Wrappers
  import opened Assoc
  import Text

  datatype Value =
    | Null
    | Undef
    | Bool(b: bool)
    | Num(n: int)
    | Str(s: string)
    | Arr(items: seq<Value>)
    | Obj(fields: seq<Entry<Value>>)
    | Fn

  /** `v === null || v === undefined`. */
  predicate Nullish(v: Value)
  {
    v.Null? || v.Undef?
  }

  /** JavaScript truthiness (`if (v)`). */
  predicate Truthy(v: Value)
  {
    match v
    case Null => false
    case Undef => false
    case Bool(b) => b
    case Num(n) => n != 0
    case Str(s) => s != ""
    case _ => true
  }

  /** `typeof v === 'object' && v !== null`: arrays and plain objects. */
  predicate IsObjectLike(v: Value)
  {
    v.Arr? || v.Obj?
  }

  function Size(v: Value): nat
  {
    match v
    case Arr(items) => 1 + ItemsSize(items)
    case Obj(fields) => 1 + FieldsSize(fields)
    case _ => 1
  }

  function ItemsSize(items: seq<Value>): nat
  {
    if |items| == 0 then 0 else Size(items[0]) + ItemsSize(items[1..])
  }

  function FieldsSize(fields: seq<Entry<Value>>): nat
  {
    if |fields| == 0 then 0 else 1 + Size(fields[0].val) + FieldsSize(fields[1..])
  }

  /** Every object, at every level, has distinct keys, as JavaScript
      objects always do. */
  predicate WellFormed(v: Value)
  {
    match v
    case Arr(items) => forall i :: 0 <= i < |items| ==> WellFormed(items[i])
    case Obj(fields) =>
      && UniqueKeys(fields)
      && forall i :: 0 <= i < |fields| ==> WellFormed(fields[i].val)
    case _ => true
  }

  datatype Json =
    | JNull
    | JBool(b: bool)
    | JNum(n: int)
    | JStr(s: string)
    | JArr(items: seq<Json>)
    | JObj(fields: seq<Entry<Json>>)

  /** The JSON value `JSON.stringify(v)` writes, or None when it returns
      `undefined` (for `undefined` and functions). Inside arrays those
      become `null`; inside objects their members are omitted. */
  function ToJson(v: Value): Option<Json>
  {
    match v
    case Null => Some(JNull)
    case Undef => None
    case Fn => None
    case Bool(b) => Some(JBool(b))
    case Num(n) => Some(JNum(n))
    case Str(s) => Some(JStr(s))
    case Arr(items) => Some(JArr(seq(|items|, i requires 0 <= i < |items| => ToJson(items[i]).GetOr(JNull))))
    case Obj(fields) => Some(JObj(FieldsToJson(fields)))
  }

  function FieldsToJson(fields: seq<Entry<Value>>): seq<Entry<Json>>
  {
    if |fields| == 0 then []
    else
      var rest := FieldsToJson(fields[1..]);
      match ToJson(fields[0].val)
      case None => rest
      case Some(j) => [Entry(fields[0].key, j)] + rest
  }

  /** `JSON.parse` of the text of `j`. */
  function FromJson(j: Json): Value
  {
    match j
    case JNull => Null
    case JBool(b) => Bool(b)
    case JNum(n) => Num(n)
    case JStr(s) => Str(s)
    case JArr(items) => Arr(seq(|items|, i requires 0 <= i < |items| => FromJson(items[i])))
    case JObj(fields) => Obj(FieldsFromJson(fields))
  }

  function FieldsFromJson(fields: seq<Entry<Json>>): (r: seq<Entry<Value>>)
    ensures |r| == |fields|
  {
    if |fields| == 0 then [] else [Entry(fields[0].key, FromJson(fields[0].val))] + FieldsFromJson(fields[1..])
  }

  /** Parsing the text of a JSON value and writing it again gives the same
      JSON value. */
  lemma {:induction false} JsonRoundTrip(j: Json)
    ensures ToJson(FromJson(j)) == Some(j)
  {
    match j
    case JArr(items) =>
      forall i | 0 <= i < |items| {
        JsonRoundTrip(items[i]);
      }
      assert ToJson(FromJson(j)).value.items == items;
    case JObj(fields) =>
      FieldsRoundTrip(fields);
    case _ =>
  }

  lemma {:induction false} FieldsRoundTrip(fields: seq<Entry<Json>>)
    ensures FieldsToJson(FieldsFromJson(fields)) == fields
  {
    if |fields| > 0 {
      var v := FieldsFromJson(fields);
      assert v[1..] == FieldsFromJson(fields[1..]);
      JsonRoundTrip(fields[0].val);
      FieldsRoundTrip(fields[1..]);
    }
  }

  /** The value a member takes after `JSON.parse(JSON.stringify(...))` of
      the record holding it: members that stringify to nothing read back as
      `undefined`. */
  function Clone(v: Value): (r: Value)
    ensures ToJson(v).None? ==> r == Undef
    ensures ToJson(v).Some? ==> ToJson(r) == ToJson(v)
  {
    match ToJson(v)
    case None => Undef
    case Some(j) => JsonRoundTrip(j); FromJson(j)
  }

  /** The members of an object after a JSON round trip of the object. */
  function CloneFields(fields: seq<Entry<Value>>): seq<Entry<Value>>
  {
    FieldsFromJson(FieldsToJson(fields))
  }

  lemma CloneObj(fields: seq<Entry<Value>>)
    ensures Clone(Obj(fields)) == Obj(CloneFields(fields))
  {
    FieldsRoundTrip(FieldsToJson(fields));
  }

  /** A JSON round trip of an object keeps exactly the members that
      stringify to something, each cloned. */
  lemma {:induction false} CloneFieldsLookup(fields: seq<Entry<Value>>, k: string)
    requires UniqueKeys(fields)
    ensures Lookup(CloneFields(fields), k) ==
      if Has(fields, k) && ToJson(Lookup(fields, k).value).Some? then Some(Clone(Lookup(fields, k).value)) else None
  {
    if |fields| > 0 {
      var k0 := fields[0].key;
      UniqueTail(fields);
      CloneFieldsLookup(fields[1..], k);
      LookupCons(fields, k);
      assert Has(fields, k) <==> k == k0 || Has(fields[1..], k) by {
        KeysCons(fields);
      }
      var tail := CloneFields(fields[1..]);
      match ToJson(fields[0].val)
      case None =>
        assert CloneFields(fields) == tail;
      case Some(j) =>
        var c := CloneFields(fields);
        assert c == [Entry(k0, FromJson(j))] + tail by {
          assert FieldsToJson(fields) == [Entry(k0, j)] + FieldsToJson(fields[1..]);
        }
        assert c[1..] == tail;
        LookupCons(c, k);
    }
  }

  /** The value an array element takes after a JSON round trip of the
      array: elements that stringify to nothing read back as `null`. */
  function CloneItem(v: Value): (r: Value)
    ensures ToJson(r) == Some(ToJson(v).GetOr(JNull))
  {
    var j := ToJson(v).GetOr(JNull);
    JsonRoundTrip(j);
    FromJson(j)
  }

  /** Cloning is idempotent: a cloned value survives a second round trip
      unchanged. */
  lemma CloneIdempotent(v: Value)
    ensures Clone(Clone(v)) == Clone(v)
  {
    match ToJson(v)
    case None =>
    case Some(j) =>
      JsonRoundTrip(j);
  }

  /** `String(x)` of a number, boolean or string; the text an inline
      editor shows for an editable leaf. */
  function DisplayText(v: Value): string
  {
    match v
    case Num(n) => Text.IntToDecimal(n)
    case Bool(b) => if b then "true" else "false"
    case Str(s) => s
    case Null => "null"
    case Undef => "undefined"
    case Arr(_) => "[object Array]"
    case Obj(_) => "[object Object]"
    case Fn => "function"
  }

  /** Lower-case hexadecimal digit of `d` (`0 <= d < 16`). */
  function HexDigit(d: int): char
    requires 0 <= d < 16
  {
    if d < 10 then ('0' as int + d) as char else ('a' as int + d - 10) as char
  }

  /** How `JSON.stringify` writes one character of a string. */
  function EscapeChar(c: char): (r: string)
    ensures |r| > 0
    ensures r[0] == '\\' || r == [c]
    ensures r[0] == '\\' ==> (|r| == 2 || |r| == 6) && (|r| == 6 <==> r[1] == 'u')
    ensures r[0] != '\\' ==> r == [c]
  {
    if c == '"' then "\\\""
    else if c == '\\' then "\\\\"
    else if c == '\U{0008}' then "\\b"
    else if c == '\U{000C}' then "\\f"
    else if c == '\n' then "\\n"
    else if c == '\r' then "\\r"
    else if c == '\t' then "\\t"
    else if (c as int) < 0x20 then "\\u00" + [HexDigit(c as int / 16), HexDigit(c as int % 16)]
    else [c]
  }

  function Escape(s: string): string
  {
    if |s| == 0 then "" else EscapeChar(s[0]) + Escape(s[1..])
  }

  /** `JSON.stringify(s)` for a string `s`. */
  function Quote(s: string): string
  {
    "\"" + Escape(s) + "\""
  }

  /** The text `JSON.stringify` produces for a JSON value. */
  function JsonText(j: Json): string
  {
    match j
    case JNull => "null"
    case JBool(b) => if b then "true" else "false"
    case JNum(n) => Text.IntToDecimal(n)
    case JStr(s) => Quote(s)
    case JArr(items) => "[" + ItemsText(items) + "]"
    case JObj(fields) => "{" + MembersText(fields) + "}"
  }

  function ItemsText(items: seq<Json>): string
  {
    if |items| == 0 then ""
    else if |items| == 1 then JsonText(items[0])
    else JsonText(items[0]) + "," + ItemsText(items[1..])
  }

  function MembersText(fields: seq<Entry<Json>>): string
  {
    if |fields| == 0 then ""
    else
      var member := Quote(fields[0].key) + ":" + JsonText(fields[0].val);
      if |fields| == 1 then member else member + "," + MembersText(fields[1..])
  }

  /** `safeStringify` of the panel: `undefined` and `null` print as words,
      booleans as `String(b)`, everything else as `JSON.stringify` does;
      None is the `undefined` that `JSON.stringify` returns for a function. */
  function SafeStringify(v: Value): (r: Option<string>)
    ensures v == Undef ==> r == Some("undefined")
    ensures v == Null ==> r == Some("null")
    ensures v.Bool? ==> r == Some(if v.b then "true" else "false")
    ensures v.Str? ==> r == Some(Quote(v.s))
    ensures r.None? <==> v == Fn
    ensures v != Undef && ToJson(v).Some? ==> r == Some(JsonText(ToJson(v).value))
  {
    match v
    case Undef => Some("undefined")
    case Null => Some("null")
    case Bool(b) => Some(if b then "true" else "false")
    case Str(s) => Some(Quote(s))
    case _ =>
      match ToJson(v)
      case None => None
      case Some(j) => Some(JsonText(j))
  }

  lemma {:induction false} EscapeCharPrefixFree(x: char, y: char, rest1: string, rest2: string)
    requires EscapeChar(x) + rest1 == EscapeChar(y) + rest2
    ensures x == y && rest1 == rest2
  {
    var ex, ey := EscapeChar(x), EscapeChar(y);
    assert ex[0] == (ex + rest1)[0] == (ey + rest2)[0] == ey[0];
    if ex[0] == '\\' {
      assert ex[1] == (ex + rest1)[1] == (ey + rest2)[1] == ey[1];
    }
    assert |ex| == |ey|;
    assert ex == (ex + rest1)[..|ex|] == (ey + rest2)[..|ey|] == ey;
    EscapeCharInjective(x, y);
    assert rest1 == (ex + rest1)[|ex|..] == (ey + rest2)[|ey|..] == rest2;
  }

  lemma EscapeCharInjective(x: char, y: char)
    requires EscapeChar(x) == EscapeChar(y)
    ensures x == y
  {
    if (x as int) < 0x20 && (y as int) < 0x20 && EscapeChar(x)[1] == 'u' {
      var ex := EscapeChar(x);
      assert ex[4] == HexDigit(x as int / 16) && ex[5] == HexDigit(x as int % 16);
      assert ex[4] == HexDigit(y as int / 16) && ex[5] == HexDigit(y as int % 16);
    }
  }

  /** Distinct strings are written differently: the escaping is a
      prefix-free code, so `JSON.stringify` loses nothing on strings. */
  lemma {:induction false} EscapeInjective(a: string, b: string)
    requires Escape(a) == Escape(b)
    ensures a == b
    decreases |a|
  {
    if |a| > 0 && |b| > 0 {
      EscapeCharPrefixFree(a[0], b[0], Escape(a[1..]), Escape(b[1..]));
      EscapeInjective(a[1..], b[1..]);
      assert a == [a[0]] + a[1..];
      assert b == [b[0]] + b[1..];
    }
  }

  /** `safeStringify` tells distinct strings apart. */
  lemma SafeStringifyStringsInjective(a: string, b: string)
    requires SafeStringify(Str(a)) == SafeStringify(Str(b))
    ensures a == b
  {
    var qa, qb := Quote(a), Quote(b);
    assert Escape(a) == qa[1..|qa| - 1];
    assert Escape(b) == qb[1..|qb| - 1];
    EscapeInjective(a, b);
  }
}
