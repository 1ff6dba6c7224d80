/** Edit paths: `parsePath`, which splits a dotted / bracketed path into
    property names and array indices, and the path strings the state tree
    builds for each node. */
module Paths {
  import opened Wrappers
  import opened Text

  /** One step of a path: a property name, or the result of
      `parseInt(index, 10)` for a bracketed index (`None` is `NaN`). */
  datatype Segment = Key(name: string) | Index(n: Option<int>)

  /** Paths the state tree can build and `parsePath` can read back:
      names are non-empty and contain neither `.` nor `[`. */
  predicate Addressable(segs: seq<Segment>)
  {
    forall i :: 0 <= i < |segs| && segs[i].Key? ==>
      segs[i].name != "" && '.' !in segs[i].name && '[' !in segs[i].name
  }

  /** The pending property name, if any, as a segment list. */
  function Flush(current: string): (r: seq<Segment>)
    ensures current == "" <==> r == []
  {
    if current == "" then [] else [Key(current)]
  }

  lemma FlushAddressable(current: string)
    requires '.' !in current && '[' !in current
    ensures Addressable(Flush(current))
  {
  }

  lemma AddressableJoin(a: seq<Segment>, b: seq<Segment>, c: seq<Segment>)
    requires Addressable(a) && Addressable(b) && Addressable(c)
    ensures Addressable(a + b + c) && Addressable(a + c)
  {
    forall i | 0 <= i < |a + b + c| ensures (a + b + c)[i] in a || (a + b + c)[i] in b || (a + b + c)[i] in c {
      if i < |a| { assert (a + b + c)[i] == a[i]; }
      else if i < |a| + |b| { assert (a + b + c)[i] == b[i - |a|]; }
      else { assert (a + b + c)[i] == c[i - |a| - |b|]; }
    }
    forall i | 0 <= i < |a + c| ensures (a + c)[i] in a || (a + c)[i] in c {
      if i < |a| { assert (a + c)[i] == a[i]; }
      else { assert (a + c)[i] == c[i - |a|]; }
    }
  }

  /** The text of a bracket: every character up to the first `]`, or to
      the end when the bracket is never closed. */
  function Bracketed(s: string): (r: string)
    ensures r <= s && ']' !in r
    ensures |r| < |s| ==> s[|r|] == ']'
  {
    if |s| == 0 || s[0] == ']' then "" else [s[0]] + Bracketed(s[1..])
  }

  /** The segments of `path` when the scan has already gathered `current`
      as a pending property name. */
  function ParseFrom(path: string, current: string): seq<Segment>
    decreases |path|
  {
    if |path| == 0 then Flush(current)
    else if path[0] == '[' then
      var body := Bracketed(path[1..]);
      var next := if 1 + |body| < |path| then 2 + |body| else |path|;
      Flush(current) + (if body == "" then [] else [Index(ParseInt(body))]) + ParseFrom(path[next..], "")
    else if path[0] == '.' then
      Flush(current) + ParseFrom(path[1..], "")
    else
      ParseFrom(path[1..], current + [path[0]])
  }

  /** A pending name free of `.` and `[` can only grow by characters that
      are neither, so every name the scan yields is addressable. */
  lemma {:induction false} ParseFromAddressable(path: string, current: string)
    requires '.' !in current && '[' !in current
    ensures Addressable(ParseFrom(path, current))
    decreases |path|
  {
    FlushAddressable(current);
    if |path| == 0 {
    } else if path[0] == '[' {
      var body := Bracketed(path[1..]);
      var next := if 1 + |body| < |path| then 2 + |body| else |path|;
      ParseFromAddressable(path[next..], "");
      AddressableJoin(Flush(current), if body == "" then [] else [Index(ParseInt(body))], ParseFrom(path[next..], ""));
    } else if path[0] == '.' {
      ParseFromAddressable(path[1..], "");
      AddressableJoin(Flush(current), [], ParseFrom(path[1..], ""));
    } else {
      assert '.' !in current + [path[0]] && '[' !in current + [path[0]];
      ParseFromAddressable(path[1..], current + [path[0]]);
    }
  }

  /** `parsePath(path)`: a `.` ends a property name, `[...]` yields an
      index, and empty names and empty brackets yield nothing. Every name
      it yields is non-empty and free of `.` and `[`. */
  function ParsePath(path: string): (r: seq<Segment>)
    ensures Addressable(r)
    ensures path == "" ==> r == []
  {
    ParseFromAddressable(path, "");
    ParseFrom(path, "")
  }

  lemma {:induction false} BracketedPrefix(s: string, n: nat)
    requires n <= |s| && ']' !in s[..n]
    requires n == |s| || s[n] == ']'
    ensures Bracketed(s) == s[..n]
    decreases n
  {
    if n > 0 {
      assert s[1..][..n - 1] == s[1..n];
      assert ']' !in s[1..][..n - 1] by {
        assert forall c :: c in s[1..][..n - 1] ==> c in s[..n];
      }
      BracketedPrefix(s[1..], n - 1);
      assert s[..n] == [s[0]] + s[1..n];
    }
  }

  /** The inner loop of `parsePath`: gathers the characters after `[`
      up to the closing `]` or the end of the path. */
  method ScanBracket(path: string, start: nat) returns (index: string, i: nat)
    requires start <= |path|
    ensures index == Bracketed(path[start..])
    ensures i == start + |index| && i <= |path|
  {
    i := start;
    index := "";
    while i < |path| && path[i] != ']'
      invariant start <= i <= |path|
      invariant index == path[start..i]
      invariant ']' !in index
    {
      index := index + [path[i]];
      i := i + 1;
    }
    assert path[start..][..i - start] == index;
    BracketedPrefix(path[start..], i - start);
  }

  lemma ParseStepBracket(path: string, i: nat, current: string, index: string, j: nat)
    requires i < |path| && path[i] == '['
    requires '.' !in current && '[' !in current
    requires index == Bracketed(path[i + 1..]) && j == i + 1 + |index| && j <= |path|
    ensures ParseFrom(path[i..], current) ==
      Flush(current) + (if index == "" then [] else [Index(ParseInt(index))])
        + ParseFrom(path[(if j < |path| then j + 1 else j)..], "")
  {
    var rest := path[i..];
    assert rest[1..] == path[i + 1..];
    assert rest[(if 1 + |index| < |rest| then 2 + |index| else |rest|)..]
        == path[(if j < |path| then j + 1 else j)..];
  }

  lemma ParseStepDot(path: string, i: nat, current: string)
    requires i < |path| && path[i] == '.'
    requires '.' !in current && '[' !in current
    ensures ParseFrom(path[i..], current) == Flush(current) + ParseFrom(path[i + 1..], "")
  {
    assert path[i..][1..] == path[i + 1..];
  }

  lemma ParseStepChar(path: string, i: nat, current: string)
    requires i < |path| && path[i] != '.' && path[i] != '['
    requires '.' !in current && '[' !in current
    ensures ParseFrom(path[i..], current) == ParseFrom(path[i + 1..], current + [path[i]])
  {
    assert path[i..][1..] == path[i + 1..];
  }

  lemma SpliceFound(parts: seq<Segment>, found: seq<Segment>, rest: seq<Segment>)
    ensures parts + (found + rest) == (parts + found) + rest
  {
  }

  /** `parsePath` as written, with its character loop; it computes
      `ParsePath`. */
  method ParsePathScan(path: string) returns (parts: seq<Segment>)
    ensures parts == ParsePath(path)
  {
    parts := [];
    var current := "";
    var i := 0;
    while i < |path|
      invariant 0 <= i <= |path|
      invariant '.' !in current && '[' !in current
      invariant parts + ParseFrom(path[i..], current) == ParsePath(path)
    {
      if path[i] == '[' {
        var index, j := ScanBracket(path, i + 1);
        ParseStepBracket(path, i, current, index, j);
        var found := Flush(current) + (if index == "" then [] else [Index(ParseInt(index))]);
        // Skipping the closing bracket; past the end the scan stops anyway.
        var next := if j < |path| then j + 1 else j;
        SpliceFound(parts, found, ParseFrom(path[next..], ""));
        parts := parts + found;
        current := "";
        i := next;
      } else if path[i] == '.' {
        ParseStepDot(path, i, current);
        SpliceFound(parts, Flush(current), ParseFrom(path[i + 1..], ""));
        parts := parts + Flush(current);
        current := "";
        i := i + 1;
      } else {
        ParseStepChar(path, i, current);
        current := current + [path[i]];
        i := i + 1;
      }
    }
    assert path[i..] == "";
    parts := parts + Flush(current);
  }

  /** How an index is written inside brackets. */
  function IndexText(n: Option<int>): string
  {
    match n
    case Some(k) => IntToDecimal(k)
    case None => "NaN"
  }

  /** The path of a child node: `path.key` below an object (just `key`
      at the top), `path[i]` below an array. */
  function Extend(path: string, s: Segment): (r: string)
    ensures path <= r
  {
    match s
    case Key(k) => if path == "" then k else path + "." + k
    case Index(n) => path + "[" + IndexText(n) + "]"
  }

  /** The path the state tree builds for the node reached by `segs`. */
  function FormatPath(segs: seq<Segment>): string
  {
    if |segs| == 0 then "" else Extend(FormatPath(segs[..|segs| - 1]), segs[|segs| - 1])
  }

  /** The text one segment adds to a path; `atStart` says nothing has
      been written before it. */
  function Head(s: Segment, atStart: bool): string
  {
    match s
    case Key(k) => if atStart then k else "." + k
    case Index(n) => "[" + IndexText(n) + "]"
  }

  /** The same path written front to back. */
  function Render(segs: seq<Segment>, atStart: bool): string
  {
    if |segs| == 0 then "" else Head(segs[0], atStart) + Render(segs[1..], false)
  }

  lemma {:induction false} RenderSnoc(segs: seq<Segment>, s: Segment, atStart: bool)
    ensures Render(segs + [s], atStart) == Render(segs, atStart) + Head(s, atStart && |segs| == 0)
    decreases |segs|
  {
    if |segs| == 0 {
      assert segs + [s] == [s];
      assert Render([s], atStart) == Head(s, atStart) + Render([], false);
    } else {
      assert (segs + [s])[1..] == segs[1..] + [s];
      assert (segs + [s])[0] == segs[0];
      RenderSnoc(segs[1..], s, false);
    }
  }

  lemma {:induction false} RenderEmpty(segs: seq<Segment>, atStart: bool)
    requires Addressable(segs)
    ensures Render(segs, atStart) == "" <==> |segs| == 0
  {
    if |segs| > 0 {
      var r := Render(segs, atStart);
      assert r == Head(segs[0], atStart) + Render(segs[1..], false);
      match segs[0]
      case Key(k) => assert |Head(segs[0], atStart)| > 0;
      case Index(n) => assert |Head(segs[0], atStart)| > 0;
    }
  }

  lemma ExtendHead(p: string, s: Segment)
    ensures Extend(p, s) == p + Head(s, p == "")
  {
    match s
    case Key(k) =>
      if p == "" {
        assert p + k == k;
      }
    case Index(n) =>
  }

  lemma {:induction false} FormatIsRender(segs: seq<Segment>)
    requires Addressable(segs)
    ensures FormatPath(segs) == Render(segs, true)
    decreases |segs|
  {
    if |segs| > 0 {
      var init, s := segs[..|segs| - 1], segs[|segs| - 1];
      assert segs == init + [s];
      assert Addressable(init) by {
        forall i | 0 <= i < |init| ensures init[i] == segs[i] { }
      }
      FormatIsRender(init);
      RenderSnoc(init, s, true);
      RenderEmpty(init, true);
      var p := Render(init, true);
      assert FormatPath(segs) == Extend(p, s);
      ExtendHead(p, s);
    }
  }

  /** Property-name characters accumulate into the pending name. */
  lemma {:induction false} ParseName(k: string, t: string, current: string)
    requires '.' !in current && '[' !in current
    requires '.' !in k && '[' !in k
    ensures ParseFrom(k + t, current) == ParseFrom(t, current + k)
    decreases |k|
  {
    if |k| > 0 {
      assert (k + t)[1..] == k[1..] + t;
      assert current + k == (current + [k[0]]) + k[1..];
      ParseName(k[1..], t, current + [k[0]]);
    } else {
      assert k + t == t;
      assert current + k == current;
    }
  }

  /** A separator or a bracket ends the pending name. */
  lemma ParseBoundary(t: string, current: string)
    requires '.' !in current && '[' !in current
    requires t == "" || t[0] == '.' || t[0] == '['
    ensures ParseFrom(t, current) == Flush(current) + ParseFrom(t, "")
  {
  }

  /** A path continued after its first segment starts with `.` or `[`. */
  lemma RenderContinues(segs: seq<Segment>)
    ensures Render(segs, false) == "" || Render(segs, false)[0] == '.' || Render(segs, false)[0] == '['
  {
    if |segs| > 0 {
      assert Render(segs, false) == Head(segs[0], false) + Render(segs[1..], false);
    }
  }

  lemma ParseHeadKey(k: string, atStart: bool, tail: string)
    requires k != "" && '.' !in k && '[' !in k
    requires tail == "" || tail[0] == '.' || tail[0] == '['
    ensures ParseFrom(Head(Key(k), atStart) + tail, "") == [Key(k)] + ParseFrom(tail, "")
  {
    assert "" + k == k;
    ParseName(k, tail, "");
    ParseBoundary(tail, k);
    if atStart {
      assert Head(Key(k), atStart) + tail == k + tail;
    } else {
      assert Head(Key(k), atStart) + tail == "." + (k + tail);
      LeadingDot(k + tail);
    }
  }

  /** A separator with no pending name yields nothing. */
  lemma LeadingDot(x: string)
    ensures ParseFrom("." + x, "") == ParseFrom(x, "")
  {
    var p := "." + x;
    assert p[1..] == x;
    assert Flush("") + ParseFrom(x, "") == ParseFrom(x, "");
  }

  lemma IndexTextPlain(n: Option<int>)
    ensures ']' !in IndexText(n) && IndexText(n) != ""
    ensures ParseInt(IndexText(n)) == n
  {
    match n
    case Some(x) =>
      if ']' in IndexText(n) {
        DecimalChars(x, ']');
      }
      ParseIntOfDecimal(x);
    case None =>
      var d := IndexText(n);
      assert TrimStart(d) == d;
      assert SignBody(d) == d;
  }

  lemma ParseBracket(d: string, tail: string)
    requires ']' !in d && d != ""
    ensures ParseFrom("[" + d + "]" + tail, "") == [Index(ParseInt(d))] + ParseFrom(tail, "")
  {
    var p := "[" + d + "]" + tail;
    assert p[1..][..|d|] == d;
    assert p[1..][|d|] == ']';
    BracketedPrefix(p[1..], |d|);
    assert p[2 + |d|..] == tail;
  }

  lemma ParseHeadIndex(n: Option<int>, atStart: bool, tail: string)
    ensures ParseFrom(Head(Index(n), atStart) + tail, "") == [Index(n)] + ParseFrom(tail, "")
  {
    var d := IndexText(n);
    IndexTextPlain(n);
    assert Head(Index(n), atStart) + tail == "[" + d + "]" + tail;
    ParseBracket(d, tail);
  }

  lemma {:induction false} ParseRender(segs: seq<Segment>, atStart: bool)
    requires Addressable(segs)
    ensures ParseFrom(Render(segs, atStart), "") == segs
    decreases |segs|
  {
    if |segs| > 0 {
      var tail := Render(segs[1..], false);
      assert Addressable(segs[1..]) by {
        forall i | 0 <= i < |segs[1..]| ensures segs[1..][i] == segs[i + 1] { }
      }
      ParseRender(segs[1..], false);
      RenderContinues(segs[1..]);
      assert Render(segs, atStart) == Head(segs[0], atStart) + tail;
      match segs[0]
      case Key(k) =>
        assert segs[0].name == k;
        ParseHeadKey(k, atStart, tail);
      case Index(n) =>
        ParseHeadIndex(n, atStart, tail);
      assert segs == [segs[0]] + segs[1..];
    }
  }

  /** Reading back a path the state tree built gives the segments it was
      built from. */
  lemma FormatThenParse(segs: seq<Segment>)
    requires Addressable(segs)
    ensures ParsePath(FormatPath(segs)) == segs
  {
    FormatIsRender(segs);
    ParseRender(segs, true);
  }

  /** A path without separators or brackets is a single property name. */
  lemma {:induction false} PlainPath(path: string)
    requires path != "" && '.' !in path && '[' !in path
    ensures ParsePath(path) == [Key(path)]
  {
    ParseName(path, "", "");
    assert path + "" == path;
    assert "" + path == path;
  }

  /** Every property name among `segs` occurs in `text`. */
  predicate NamesIn(segs: seq<Segment>, text: string)
  {
    forall i :: 0 <= i < |segs| && segs[i].Key? ==> Contains(text, segs[i].name)
  }

  lemma NamesInAppend(a: seq<Segment>, b: seq<Segment>, text: string)
    requires NamesIn(a, text) && NamesIn(b, text)
    ensures NamesIn(a + b, text)
  {
    forall i | 0 <= i < |a + b| && (a + b)[i].Key? ensures Contains(text, (a + b)[i].name) {
      if i >= |a| {
        assert (a + b)[i] == b[i - |a|];
      }
    }
  }

  /** Names found after the scan position occur in the whole text. */
  lemma NamesAfter(pre: string, rest: string, tail: seq<Segment>)
    requires NamesIn(tail, rest)
    ensures NamesIn(tail, pre + rest)
  {
    forall i | 0 <= i < |tail| && tail[i].Key? ensures Contains(pre + rest, tail[i].name) {
      ContainsSuffix(pre, rest, tail[i].name);
    }
  }

  /** The step of `NamesOccur` at a separator: the names are the
      pending one and those after position `next`. */
  lemma NamesAcross(current: string, path: string, next: nat, mid: seq<Segment>, tail: seq<Segment>)
    requires next <= |path|
    requires forall i :: 0 <= i < |mid| ==> mid[i].Index?
    requires NamesIn(tail, "" + path[next..])
    ensures NamesIn(Flush(current) + mid + tail, current + path)
  {
    assert current <= current + path;
    assert NamesIn(Flush(current), current + path);
    assert NamesIn(mid, current + path);
    assert "" + path[next..] == path[next..];
    NamesAfter(current + path[..next], path[next..], tail);
    assert (current + path[..next]) + path[next..] == current + path;
    NamesInAppend(Flush(current), mid, current + path);
    NamesInAppend(Flush(current) + mid, tail, current + path);
  }

  /** Every property name the scan yields is a piece of the text it
      scanned, the pending name included. */
  lemma {:induction false} NamesOccur(path: string, current: string)
    requires '.' !in current && '[' !in current
    ensures NamesIn(ParseFrom(path, current), current + path)
    decreases |path|
  {
    if |path| == 0 {
      assert current <= current + path;
    } else if path[0] == '[' {
      var body := Bracketed(path[1..]);
      var next := if 1 + |body| < |path| then 2 + |body| else |path|;
      NamesOccur(path[next..], "");
      NamesBracket(path, current);
    } else if path[0] == '.' {
      NamesOccur(path[1..], "");
      NamesDot(path, current);
    } else {
      NamesOccur(path[1..], current + [path[0]]);
      assert (current + [path[0]]) + path[1..] == current + path;
    }
  }

  lemma NamesBracket(path: string, current: string)
    requires '.' !in current && '[' !in current
    requires |path| > 0 && path[0] == '['
    requires var next := if 1 + |Bracketed(path[1..])| < |path| then 2 + |Bracketed(path[1..])| else |path|;
      NamesIn(ParseFrom(path[next..], ""), "" + path[next..])
    ensures NamesIn(ParseFrom(path, current), current + path)
  {
    var body := Bracketed(path[1..]);
    var next := if 1 + |body| < |path| then 2 + |body| else |path|;
    var mid: seq<Segment> := if body == "" then [] else [Index(ParseInt(body))];
    NamesAcross(current, path, next, mid, ParseFrom(path[next..], ""));
  }

  lemma NamesDot(path: string, current: string)
    requires '.' !in current && '[' !in current
    requires |path| > 0 && path[0] == '.'
    requires NamesIn(ParseFrom(path[1..], ""), "" + path[1..])
    ensures NamesIn(ParseFrom(path, current), current + path)
  {
    NamesAcross(current, path, 1, [], ParseFrom(path[1..], ""));
    assert Flush(current) + [] == Flush(current);
  }

  /** Every property name `parsePath` yields occurs in the path text. */
  lemma ParsedNamesOccur(path: string)
    ensures NamesIn(ParsePath(path), path)
  {
    NamesOccur(path, "");
    assert "" + path == path;
  }

  /** The three paths the documentation of `parsePath` gives as examples. */
  lemma DocumentedExamples()
    ensures ParsePath("user.name") == [Key("user"), Key("name")]
    ensures ParsePath("[0].locationName") == [Index(Some(0)), Key("locationName")]
    ensures ParsePath("items[0].name") == [Key("items"), Index(Some(0)), Key("name")]
  {
    ExampleDotted();
    ExampleLeadingIndex();
    ExampleInnerIndex();
  }

  lemma ExampleDotted()
    ensures ParsePath("user.name") == [Key("user"), Key("name")]
  {
    var segs := [Key("user"), Key("name")];
    FormatOne(Key("user"));
    FormatSnoc([Key("user")], Key("name"));
    assert [Key("user")] + [Key("name")] == segs;
    assert FormatPath(segs) == "user.name";
    FormatThenParse(segs);
  }

  lemma ExampleLeadingIndex()
    ensures ParsePath("[0].locationName") == [Index(Some(0)), Key("locationName")]
  {
    var segs := [Index(Some(0)), Key("locationName")];
    ZeroText();
    FormatOne(Index(Some(0)));
    FormatSnoc([Index(Some(0))], Key("locationName"));
    assert [Index(Some(0))] + [Key("locationName")] == segs;
    assert FormatPath(segs) == "[0].locationName";
    FormatThenParse(segs);
  }

  lemma ExampleInnerIndex()
    ensures ParsePath("items[0].name") == [Key("items"), Index(Some(0)), Key("name")]
  {
    var segs := [Key("items"), Index(Some(0)), Key("name")];
    ZeroText();
    FormatOne(Key("items"));
    FormatSnoc([Key("items")], Index(Some(0)));
    assert [Key("items")] + [Index(Some(0))] == segs[..2];
    FormatSnoc(segs[..2], Key("name"));
    assert segs[..2] + [Key("name")] == segs;
    assert FormatPath(segs) == "items[0].name";
    FormatThenParse(segs);
  }

  lemma ZeroText()
    ensures IndexText(Some(0)) == "0"
  {
  }

  lemma FormatOne(s: Segment)
    ensures FormatPath([s]) == Extend("", s)
  {
  }

  lemma FormatSnoc(segs: seq<Segment>, s: Segment)
    ensures FormatPath(segs + [s]) == Extend(FormatPath(segs), s)
  {
    assert (segs + [s])[..|segs|] == segs;
  }
}
