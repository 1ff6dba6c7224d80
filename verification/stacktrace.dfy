/** `parseStackTrace` of the actions panel: splits a captured stack into
    lines, matches each trimmed, non-blank line against the V8 frame
    pattern `^at\s+(?:async\s+)?(?:(.+?)\s+)?\(?(.+?):(\d+):(\d+)\)?$`,
    then against the SpiderMonkey pattern `^(.+?)@(.+?):(\d+):(\d+)$`, and
    otherwise keeps the line itself as a frame unless it starts with
    `Error`.

    The two patterns are matched the way an ECMAScript regular expression
    engine backtracks: greedy `\s+` tries its longest run first, lazy
    `.+?` its shortest extension first, optional groups are tried present
    before absent, and the first success wins. `.` matches anything but a
    line terminator; `\s` matches white space and line terminators. */
module StackTrace {
  import opened Wrappers
  import opened Text

  datatype Frame = Frame(name: string, file: string, line: string, column: string)

  /** The result of the V8 pattern: the function-name group when it took
      part, the file, line and column groups. */
  datatype V8Match = V8Match(name: Option<string>, file: string, line: string, column: string)

  /** A V8 match: a function name, when present, is non-empty. */
  predicate V8Shape(m: V8Match)
  {
    (m.name.Some? ==> |m.name.value| > 0) && Located(m.file, m.line, m.column)
  }

  /** What every match of either pattern has: a non-empty file and
      non-empty digit runs for line and column. */
  predicate Located(file: string, line: string, column: string)
  {
    |file| > 0 && |line| > 0 && AllDigits(line) && |column| > 0 && AllDigits(column)
  }

  /** The characters `.` does not match. */
  predicate IsTerminator(c: char)
  {
    c == '\n' || c == '\r' || c == '\U{2028}' || c == '\U{2029}'
  }

  /** The length of the white-space run of `s` starting at `p`. */
  function SpaceRun(s: string, p: nat): (n: nat)
    requires p <= |s|
    ensures p + n <= |s|
    ensures forall i :: p <= i < p + n ==> IsSpace(s[i])
    ensures p + n == |s| || !IsSpace(s[p + n])
    decreases |s| - p
  {
    if p < |s| && IsSpace(s[p]) then 1 + SpaceRun(s, p + 1) else 0
  }

  /** `t` is `:line:column`, with a closing parenthesis allowed when
      `closer`, and both numbers are non-empty runs of digits. */
  predicate FrameEnd(t: string, line: string, column: string, closer: bool)
  {
    && |line| > 0 && AllDigits(line)
    && |column| > 0 && AllDigits(column)
    && (t == ":" + line + ":" + column || (closer && t == ":" + line + ":" + column + ")"))
  }

  /** The end `:(\d+):(\d+)` of a frame, then `\)?` when `closer`, then the
      end of the line. Only the longest digit runs can be followed by `:`
      or the end, so backtracking into them never helps. */
  function LineColumn(s: string, p: nat, closer: bool): (r: Option<(string, string)>)
    requires p <= |s|
    ensures r.Some? ==> FrameEnd(s[p..], r.value.0, r.value.1, closer)
  {
    if p < |s| && s[p] == ':' then
      var d1 := DigitPrefix(s[p + 1..]);
      if |d1| > 0 then ColumnAfter(s, p, d1, closer) else None
    else None
  }

  /** The rest of the frame end once `:(\d+)` has matched `d1`. */
  function ColumnAfter(s: string, p: nat, d1: string, closer: bool): (r: Option<(string, string)>)
    requires p < |s| && s[p] == ':' && d1 == DigitPrefix(s[p + 1..]) && |d1| > 0
    ensures r.Some? ==> r.value.0 == d1 && FrameEnd(s[p..], d1, r.value.1, closer)
  {
    var p2 := p + 1 + |d1|;
    if p2 < |s| && s[p2] == ':' then
      var d2 := DigitPrefix(s[p2 + 1..]);
      var p3 := p2 + 1 + |d2|;
      if |d2| > 0 && (p3 == |s| || (closer && p3 == |s| - 1 && s[p3] == ')')) then
        LineColumnShape(s, p, p2, p3, d1, d2, closer);
        Some((d1, d2))
      else None
    else None
  }

  lemma LineColumnShape(s: string, p: nat, p2: nat, p3: nat, d1: string, d2: string, closer: bool)
    requires p < |s| && s[p] == ':' && d1 == DigitPrefix(s[p + 1..]) && |d1| > 0
    requires p2 == p + 1 + |d1| && p2 < |s| && s[p2] == ':'
    requires d2 == DigitPrefix(s[p2 + 1..]) && |d2| > 0 && p3 == p2 + 1 + |d2|
    requires p3 == |s| || (closer && p3 == |s| - 1 && s[p3] == ')')
    ensures FrameEnd(s[p..], d1, d2, closer)
  {
    ColonRun(s, p, d1);
    ColonRun(s, p2, d2);
    JoinRuns(s, p, p2, p3, d1, d2);
    SliceToEnd(s, p, p3, ":" + d1 + ":" + d2);
  }

  lemma JoinRuns(s: string, p: nat, p2: nat, p3: nat, d1: string, d2: string)
    requires p <= p2 <= p3 <= |s|
    requires s[p..p2] == ":" + d1 && s[p2..p3] == ":" + d2
    ensures s[p..p3] == ":" + d1 + ":" + d2
  {
    assert s[p..p3] == s[p..p2] + s[p2..p3];
    assert (":" + d1) + (":" + d2) == ":" + d1 + ":" + d2;
  }

  lemma SliceToEnd(s: string, p: nat, p3: nat, core: string)
    requires p <= p3 <= |s| && s[p..p3] == core
    ensures p3 == |s| ==> s[p..] == core
    ensures p3 + 1 == |s| ==> s[p..] == core + [s[p3]]
  {
    if p3 + 1 == |s| {
      assert s[p..] == s[p..p3] + [s[p3]];
    }
  }

  /** A `:` followed by a prefix of what comes after it. */
  lemma ColonRun(s: string, a: nat, d: string)
    requires a < |s| && s[a] == ':' && d <= s[a + 1..]
    ensures a + 1 + |d| <= |s| && s[a..a + 1 + |d|] == ":" + d
  {
    assert s[a + 1..][..|d|] == s[a + 1..a + 1 + |d|];
    assert s[a..a + 1 + |d|] == [s[a]] + s[a + 1..a + 1 + |d|];
  }

  /** `(.+?)` starting at `start`, currently tried up to `q`, followed by
      the frame end: the shortest file part that works. */
  function LazyFile(s: string, start: nat, q: nat, closer: bool): (r: Option<(string, string, string)>)
    requires start < q <= |s| + 1
    requires forall i :: start <= i < q - 1 ==> !IsTerminator(s[i])
    ensures r.Some? ==> FileAt(s, start, r.value.0, r.value.1, r.value.2, closer)
    decreases |s| + 1 - q
  {
    if q > |s| || IsTerminator(s[q - 1]) then None
    else
      match LineColumn(s, q, closer)
      case Some(lc) =>
        FileFound(s, start, q, lc.0, lc.1, closer);
        Some((s[start..q], lc.0, lc.1))
      case None =>
        if q < |s| then LazyFile(s, start, q + 1, closer) else None
  }

  /** `file` is a non-empty run of `s` from `start`, free of line
      terminators, and the frame end follows it. */
  predicate FileAt(s: string, start: nat, file: string, line: string, column: string, closer: bool)
  {
    && 0 < |file| <= |s| - start
    && s[start..start + |file|] == file
    && (forall i :: start <= i < start + |file| ==> !IsTerminator(s[i]))
    && FrameEnd(s[start + |file|..], line, column, closer)
  }

  lemma FileFound(s: string, start: nat, q: nat, line: string, column: string, closer: bool)
    requires start < q <= |s|
    requires forall i :: start <= i < q - 1 ==> !IsTerminator(s[i])
    requires !IsTerminator(s[q - 1])
    requires FrameEnd(s[q..], line, column, closer)
    ensures FileAt(s, start, s[start..q], line, column, closer)
  {
  }

  /** `\(?(.+?):(\d+):(\d+)\)?$` at `p`: first with the parenthesis. */
  function Location(s: string, p: nat): (r: Option<(string, string, string)>)
    requires p <= |s|
    ensures r.Some? ==> Located(r.value.0, r.value.1, r.value.2)
  {
    var paren := if p < |s| && s[p] == '(' then LazyFile(s, p + 1, p + 2, true) else None;
    if paren.Some? then paren else LazyFile(s, p, p + 1, true)
  }

  /** `\s+` after a function name ending at `q`, trying `k` characters
      down to one, followed by the location. */
  function AfterName(s: string, q: nat, k: nat): (r: Option<(string, string, string)>)
    requires q + k <= |s|
    ensures r.Some? ==> Located(r.value.0, r.value.1, r.value.2)
    decreases k
  {
    if k == 0 then None
    else
      var r := Location(s, q + k);
      if r.Some? then r else AfterName(s, q, k - 1)
  }

  /** `(.+?)\s+` starting at `p`, currently tried up to `q`. */
  function LazyName(s: string, p: nat, q: nat): (r: Option<(string, (string, string, string))>)
    requires p < q <= |s| + 1
    ensures r.Some? ==> |r.value.0| > 0 && Located(r.value.1.0, r.value.1.1, r.value.1.2)
    decreases |s| + 1 - q
  {
    if q > |s| || IsTerminator(s[q - 1]) then None
    else
      match AfterName(s, q, SpaceRun(s, q))
      case Some(loc) => Some((s[p..q], loc))
      case None => if q < |s| then LazyName(s, p, q + 1) else None
  }

  /** `(?:(.+?)\s+)?` and the location at `p`: first with a function name. */
  function Named(s: string, p: nat): (r: Option<V8Match>)
    requires p <= |s|
    ensures r.Some? ==> V8Shape(r.value)
  {
    match LazyName(s, p, p + 1)
    case Some((name, loc)) => Some(V8Match(Some(name), loc.0, loc.1, loc.2))
    case None =>
      match Location(s, p)
      case Some(loc) => Some(V8Match(None, loc.0, loc.1, loc.2))
      case None => None
  }

  /** `\s+` after `async`, trying `k` characters down to one. */
  function AfterAsync(s: string, p: nat, k: nat): (r: Option<V8Match>)
    requires p + k <= |s|
    ensures r.Some? ==> V8Shape(r.value)
    decreases k
  {
    if k == 0 then None
    else
      var r := Named(s, p + k);
      if r.Some? then r else AfterAsync(s, p, k - 1)
  }

  /** `\s+` after `at`, trying `k` characters down to one, then
      `(?:async\s+)?` (first present) and the rest. */
  function AfterAt(s: string, k: nat): (r: Option<V8Match>)
    requires 2 + k <= |s|
    ensures r.Some? ==> V8Shape(r.value)
    decreases k
  {
    if k == 0 then None
    else
      var p := 2 + k;
      var withAsync := if "async" <= s[p..] then AfterAsync(s, p + 5, SpaceRun(s, p + 5)) else None;
      if withAsync.Some? then withAsync
      else
        var r := Named(s, p);
        if r.Some? then r else AfterAt(s, k - 1)
  }

  /** The V8 frame pattern. */
  function MatchV8(s: string): (r: Option<V8Match>)
    ensures r.Some? ==> V8Shape(r.value)
  {
    if "at" <= s then AfterAt(s, SpaceRun(s, 2)) else None
  }

  /** `(.+?)@` and then the frame end without parenthesis, with the name
      currently tried up to `q`. */
  function LazyAt(s: string, q: nat): (r: Option<Frame>)
    requires 0 < q <= |s| + 1
    ensures r.Some? ==> |r.value.name| > 0 && Located(r.value.file, r.value.line, r.value.column)
    decreases |s| + 1 - q
  {
    if q > |s| || IsTerminator(s[q - 1]) then None
    else
      var file := if q < |s| && s[q] == '@' then LazyFile(s, q + 1, q + 2, false) else None;
      match file
      case Some(f) => Some(Frame(s[..q], f.0, f.1, f.2))
      case None => if q < |s| then LazyAt(s, q + 1) else None
  }

  /** The SpiderMonkey frame pattern (file not yet cleaned). */
  function MatchGecko(s: string): (r: Option<Frame>)
    ensures r.Some? ==> |r.value.name| > 0 && Located(r.value.file, r.value.line, r.value.column)
  {
    LazyAt(s, 1)
  }

  /** The frame one trimmed line gives, if any. `clean` stands for
      `cleanFilePath`, which is not part of this model. */
  function LineFrame(line: string, clean: string -> string): (r: Option<Frame>)
    ensures r.None? <==> MatchV8(line).None? && MatchGecko(line).None? && (line == "" || "Error" <= line)
    ensures MatchV8(line).Some? ==>
      var m := MatchV8(line).value;
      r == Some(Frame(if m.name.Some? then m.name.value else "anonymous", clean(m.file), m.line, m.column))
    ensures MatchV8(line).None? && MatchGecko(line).Some? ==>
      r == Some(MatchGecko(line).value.(file := clean(MatchGecko(line).value.file)))
    ensures MatchV8(line).None? && MatchGecko(line).None? && r.Some? ==> r == Some(Frame(line, "", "", ""))
    ensures r.Some? ==> r.value.name != ""
    ensures r.Some? && r.value.line != "" ==>
      && AllDigits(r.value.line) && AllDigits(r.value.column) && r.value.column != ""
  {
    match MatchV8(line)
    case Some(m) =>
      Some(Frame(if m.name.Some? then m.name.value else "anonymous", clean(m.file), m.line, m.column))
    case None =>
      match MatchGecko(line)
      case Some(f) => Some(f.(file := clean(f.file)))
      case None => if line != "" && !("Error" <= line) then Some(Frame(line, "", "", "")) else None
  }

  /** The frames of the raw lines from index `i` on, blank ones skipped. */
  function FramesFrom(lines: seq<string>, i: nat, clean: string -> string): (r: seq<Frame>)
    requires i <= |lines|
    ensures |r| <= |lines| - i
    decreases |lines| - i
  {
    if i == |lines| then []
    else
      var rest := FramesFrom(lines, i + 1, clean);
      var t := Trim(lines[i]);
      if t == "" then rest
      else
        match LineFrame(t, clean)
        case Some(f) => [f] + rest
        case None => rest
  }

  /** `parseStackTrace(stackTrace)`. */
  function ParseStackTrace(stackTrace: string, clean: string -> string): seq<Frame>
  {
    FramesFrom(Split(stackTrace, '\n'), 0, clean)
  }

  /** The frame a raw line gives: none for a blank line, else the frame
      of the trimmed line. */
  function LineOf(clean: string -> string): string -> Option<Frame>
  {
    line => if Trim(line) == "" then None else LineFrame(Trim(line), clean)
  }

  /** The index of the line each frame came from. */
  function Origins(lines: seq<string>, i: nat, clean: string -> string): (o: seq<nat>)
    requires i <= |lines|
    decreases |lines| - i
  {
    if i == |lines| then []
    else
      var rest := Origins(lines, i + 1, clean);
      var t := Trim(lines[i]);
      if t == "" then rest
      else if LineFrame(t, clean).Some? then [i] + rest
      else rest
  }

  /** `o` records, for each of `frames`, a distinct line of `lines` at
      or after `i`, in increasing order, that gives that frame. */
  predicate Traced<T(==)>(lines: seq<string>, i: nat, o: seq<nat>, frames: seq<T>, g: string -> Option<T>)
  {
    && |o| == |frames|
    && (forall k :: 0 <= k < |o| ==> i <= o[k] < |lines|)
    && (forall k, l :: 0 <= k < l < |o| ==> o[k] < o[l])
    && (forall k :: 0 <= k < |o| ==> g(lines[o[k]]) == Some(frames[k]))
  }

  lemma TracedCons<T>(lines: seq<string>, i: nat, o: seq<nat>, frames: seq<T>, g: string -> Option<T>, f: T)
    requires i < |lines| && g(lines[i]) == Some(f)
    requires Traced(lines, i + 1, o, frames, g)
    ensures Traced(lines, i, [i] + o, [f] + frames, g)
  {
    var o' := [i] + o;
    var fs := [f] + frames;
    forall k, l | 0 <= k < l < |o'| ensures o'[k] < o'[l] {
      assert o'[l] == o[l - 1];
      if k > 0 {
        assert o'[k] == o[k - 1];
      }
    }
    forall k | 0 <= k < |o'| ensures i <= o'[k] < |lines| && g(lines[o'[k]]) == Some(fs[k]) {
      if k > 0 {
        assert o'[k] == o[k - 1] && fs[k] == frames[k - 1];
      }
    }
  }

  /** One frame per line at most, in line order, and only from non-blank
      lines: each frame is what its own line gives. */
  lemma {:induction false} OriginsSound(lines: seq<string>, i: nat, clean: string -> string)
    requires i <= |lines|
    ensures Traced(lines, i, Origins(lines, i, clean), FramesFrom(lines, i, clean), LineOf(clean))
    decreases |lines| - i
  {
    if i < |lines| {
      OriginsSound(lines, i + 1, clean);
      var rest := Origins(lines, i + 1, clean);
      var frames := FramesFrom(lines, i + 1, clean);
      var t := Trim(lines[i]);
      if t != "" && LineFrame(t, clean).Some? {
        var f := LineFrame(t, clean).value;
        assert FramesFrom(lines, i, clean) == [f] + frames;
        assert Origins(lines, i, clean) == [i] + rest;
        assert LineOf(clean)(lines[i]) == Some(f);
        TracedCons(lines, i, rest, frames, LineOf(clean), f);
      } else {
        assert FramesFrom(lines, i, clean) == frames;
        assert Origins(lines, i, clean) == rest;
      }
    }
  }

  /** `parseStackTrace` yields at most one frame per non-blank line of
      its input, in input order, each the frame that line gives. */
  lemma FramesFollowLines(stackTrace: string, clean: string -> string)
    ensures var lines := Split(stackTrace, '\n');
      Traced(lines, 0, Origins(lines, 0, clean), ParseStackTrace(stackTrace, clean), LineOf(clean))
  {
    OriginsSound(Split(stackTrace, '\n'), 0, clean);
  }

  // Completeness: lines of the documented shapes match with their parts.

  /** No character of `t` ends a line. */
  predicate NoTerminator(t: string)
  {
    forall i :: 0 <= i < |t| ==> !IsTerminator(t[i])
  }

  /** No character of `t` is white space. */
  predicate NoSpace(t: string)
  {
    forall i :: 0 <= i < |t| ==> !IsSpace(t[i])
  }

  /** A run of digits ended by a non-digit or the end is the longest
      digit prefix. */
  lemma {:induction false} DigitPrefixAt(s: string, a: nat, b: nat)
    requires a <= b <= |s| && forall i :: a <= i < b ==> IsDigit(s[i])
    requires b == |s| || !IsDigit(s[b])
    ensures DigitPrefix(s[a..]) == s[a..b]
    decreases b - a
  {
    if a < b {
      assert s[a..][1..] == s[a + 1..];
      DigitPrefixAt(s, a + 1, b);
      assert s[a..b] == [s[a]] + s[a + 1..b];
    } else if a < |s| {
      assert s[a..][0] == s[a];
    }
  }

  /** `:line:column`, optionally closed by `)` when `closer`, ending the
      line, is read as that line and column. */
  lemma LineColumnAt(s: string, p: nat, p2: nat, p3: nat, closer: bool)
    requires p + 1 < p2 && p2 + 1 < p3 <= |s| && s[p] == ':' && s[p2] == ':'
    requires forall i :: p < i < p3 && i != p2 ==> IsDigit(s[i])
    requires p3 == |s| || (closer && p3 == |s| - 1 && s[p3] == ')')
    ensures LineColumn(s, p, closer) == Some((s[p + 1..p2], s[p2 + 1..p3]))
  {
    DigitPrefixAt(s, p + 1, p2);
    assert LineColumn(s, p, closer) == ColumnAfter(s, p, s[p + 1..p2], closer);
    ColumnAt(s, p, p2, p3, closer);
  }

  /** Once the line has matched, the column run ending the line is read. */
  lemma ColumnAt(s: string, p: nat, p2: nat, p3: nat, closer: bool)
    requires p + 1 < p2 && p2 + 1 < p3 <= |s| && s[p] == ':' && s[p2] == ':'
    requires s[p + 1..p2] == DigitPrefix(s[p + 1..])
    requires forall i :: p2 < i < p3 ==> IsDigit(s[i])
    requires p3 == |s| || (closer && p3 == |s| - 1 && s[p3] == ')')
    ensures ColumnAfter(s, p, s[p + 1..p2], closer) == Some((s[p + 1..p2], s[p2 + 1..p3]))
  {
    DigitPrefixAt(s, p2 + 1, p3);
  }

  /** One step of the lazy file group: no frame end at `q`, so try one
      character more. */
  lemma LazyFileSkip(s: string, start: nat, q: nat, closer: bool)
    requires start < q < |s| && s[q] != ':'
    requires forall i :: start <= i < q - 1 ==> !IsTerminator(s[i])
    requires !IsTerminator(s[q - 1])
    ensures LazyFile(s, start, q, closer) == LazyFile(s, start, q + 1, closer)
  {
  }

  /** The lazy file group stops at the first frame end. */
  lemma LazyFileStop(s: string, start: nat, q: nat, closer: bool)
    requires start < q <= |s|
    requires forall i :: start <= i < q - 1 ==> !IsTerminator(s[i])
    requires !IsTerminator(s[q - 1]) && LineColumn(s, q, closer).Some?
    ensures LazyFile(s, start, q, closer) ==
      Some((s[start..q], LineColumn(s, q, closer).value.0, LineColumn(s, q, closer).value.1))
  {
  }

  /** Over text without `:` or line terminators the lazy file group
      extends up to `e` unchanged. */
  lemma {:induction false} LazyFileTo(s: string, start: nat, q: nat, e: nat, closer: bool)
    requires start < q <= e < |s|
    requires forall i :: start <= i < e ==> s[i] != ':' && !IsTerminator(s[i])
    ensures LazyFile(s, start, q, closer) == LazyFile(s, start, e, closer)
    decreases e - q
  {
    if q < e {
      LazyFileSkip(s, start, q, closer);
      LazyFileTo(s, start, q + 1, e, closer);
    }
  }

  /** `file:line:column` from `start`, with `)` after it when `closer`,
      is read as the shortest file before a frame end. */
  lemma FileAtEnd(s: string, start: nat, f: nat, g: nat, h: nat, closer: bool)
    requires start < f && f + 1 < g && g + 1 < h <= |s| && s[f] == ':' && s[g] == ':'
    requires forall i :: start <= i < f ==> s[i] != ':' && !IsTerminator(s[i])
    requires forall i :: f < i < h && i != g ==> IsDigit(s[i])
    requires h == |s| || (closer && h == |s| - 1 && s[h] == ')')
    ensures LazyFile(s, start, start + 1, closer) == Some((s[start..f], s[f + 1..g], s[g + 1..h]))
  {
    LineColumnAt(s, f, g, h, closer);
    LazyFileTo(s, start, start + 1, f, closer);
    LazyFileStop(s, start, f, closer);
  }

  /** One step of the lazy name group: no white space at `q`, so try one
      character more. */
  lemma LazyNameSkip(s: string, p: nat, q: nat)
    requires p < q < |s| && NonSpaceAt(s, q - 1) && NonSpaceAt(s, q)
    ensures LazyName(s, p, q) == LazyName(s, p, q + 1)
  {
    assert !IsTerminator(s[q - 1]);
    assert SpaceRun(s, q) == 0;
  }

  /** The lazy name group stops at a single space followed by a location. */
  lemma LazyNameStop(s: string, p: nat, e: nat)
    requires p < e && e + 1 < |s| && !IsTerminator(s[e - 1])
    requires s[e] == ' ' && !IsSpace(s[e + 1]) && Location(s, e + 1).Some?
    ensures LazyName(s, p, e) == Some((s[p..e], Location(s, e + 1).value))
  {
    assert SpaceRun(s, e + 1) == 0;
    assert SpaceRun(s, e) == 1;
  }

  /** `s` has a character at `i` and it is not white space. */
  predicate NonSpaceAt(s: string, i: int)
  {
    0 <= i < |s| && !IsSpace(s[i])
  }

  /** Over text without white space the lazy name group extends up to
      `e` unchanged. */
  lemma {:induction false} LazyNameTo(s: string, p: nat, q: nat, e: nat)
    requires p < q <= e < |s|
    requires forall i :: q - 1 <= i < e ==> NonSpaceAt(s, i)
    ensures LazyName(s, p, q) == LazyName(s, p, e)
    decreases e - q
  {
    if q < e {
      assert NonSpaceAt(s, q - 1) && NonSpaceAt(s, q);
      LazyNameSkip(s, p, q);
      LazyNameTo(s, p, q + 1, e);
    }
  }

  /** Without white space from `q - 1` on there is no `(.+?)\s+` to match. */
  lemma {:induction false} LazyNameNone(s: string, p: nat, q: nat)
    requires p < q <= |s| + 1
    requires forall i :: q - 1 <= i < |s| ==> NonSpaceAt(s, i)
    ensures LazyName(s, p, q) == None
    decreases |s| + 1 - q
  {
    if q <= |s| {
      assert NonSpaceAt(s, q - 1);
      if q < |s| {
        assert NonSpaceAt(s, q);
        LazyNameSkip(s, p, q);
        LazyNameNone(s, p, q + 1);
      } else {
        assert SpaceRun(s, q) == 0;
      }
    }
  }

  /** `at` and one space: the optional `async` is tried first, then the
      name and location. */
  lemma AfterAtOne(s: string)
    requires 4 <= |s| && "at" <= s && s[2] == ' ' && !IsSpace(s[3])
    requires "async" <= s[3..] ==> 8 < |s| && !IsSpace(s[8])
    ensures MatchV8(s) == Named(s, 3)
  {
    assert SpaceRun(s, 3) == 0;
    assert SpaceRun(s, 2) == 1;
    if "async" <= s[3..] {
      assert SpaceRun(s, 8) == 0;
    }
  }

  /** A name free of white space followed by a space is not taken for
      `async` unless it is `async` itself. */
  lemma NotAsync(s: string, e: nat)
    requires 3 < e < |s| && s[e] == ' ' && s[3..e] != "async"
    requires forall i :: 3 <= i < e ==> !IsSpace(s[i])
    ensures "async" <= s[3..] ==> 8 < |s| && !IsSpace(s[8])
  {
    var t := s[3..];
    var n := e - 3;
    assert t[n] == ' ';
    if n < 5 {
      assert "async"[n] != ' ';
    } else if n == 5 {
      assert t[..5] == s[3..e];
    }
  }

  /** `at name (file:line:column)` laid out by index. */
  lemma V8NamedAt(s: string, e: nat, f: nat, g: nat, h: nat)
    requires 3 < e && e + 2 < f && f + 1 < g && g + 1 < h && |s| == h + 1
    requires "at" <= s && s[2] == ' ' && s[3..e] != "async" && s[e] == ' ' && s[e + 1] == '('
    requires forall i :: 3 <= i < e ==> !IsSpace(s[i])
    requires forall i :: e + 2 <= i < f ==> s[i] != ':' && !IsTerminator(s[i])
    requires s[f] == ':' && s[g] == ':' && s[h] == ')'
    requires forall i :: f < i < h && i != g ==> IsDigit(s[i])
    ensures MatchV8(s) == Some(V8Match(Some(s[3..e]), s[e + 2..f], s[f + 1..g], s[g + 1..h]))
  {
    FileAtEnd(s, e + 2, f, g, h, true);
    assert Location(s, e + 1) == Some((s[e + 2..f], s[f + 1..g], s[g + 1..h]));
    assert forall i :: 3 <= i < e ==> NonSpaceAt(s, i);
    LazyNameTo(s, 3, 4, e);
    LazyNameStop(s, 3, e);
    NotAsync(s, e);
    AfterAtOne(s);
  }

  /** `at file:line:column` laid out by index. */
  lemma V8PlainAt(s: string, f: nat, g: nat, h: nat)
    requires 3 < f && f + 1 < g && g + 1 < h && |s| == h
    requires "at" <= s && s[2] == ' ' && s[3] != '('
    requires forall i :: 3 <= i < f ==> s[i] != ':' && !IsSpace(s[i])
    requires s[f] == ':' && s[g] == ':'
    requires forall i :: f < i < h && i != g ==> IsDigit(s[i])
    ensures MatchV8(s) == Some(V8Match(None, s[3..f], s[f + 1..g], s[g + 1..h]))
  {
    FileAtEnd(s, 3, f, g, h, true);
    PlainNoSpace(s, f, g, h);
    LazyNameNone(s, 3, 4);
    PlainNotAsync(s, f);
    AfterAtOne(s);
  }

  /** `at file:line:column` has no white space after `at `. */
  lemma PlainNoSpace(s: string, f: nat, g: nat, h: nat)
    requires 3 < f < g < h == |s| && s[f] == ':' && s[g] == ':'
    requires forall i :: 3 <= i < f ==> !IsSpace(s[i])
    requires forall i :: f < i < h && i != g ==> IsDigit(s[i])
    ensures forall i :: 3 <= i < |s| ==> NonSpaceAt(s, i)
  {
    forall i | 3 <= i < |s| ensures NonSpaceAt(s, i) {
      if f <= i {
        assert s[i] == ':' || IsDigit(s[i]);
      }
    }
  }

  /** A file part free of `:` that starts with `async` runs past it. */
  lemma PlainNotAsync(s: string, f: nat)
    requires 3 < f < |s| && s[f] == ':'
    requires forall i :: 3 <= i < f ==> s[i] != ':'
    requires forall i :: 3 <= i < |s| ==> NonSpaceAt(s, i)
    ensures "async" <= s[3..] ==> 8 < |s| && !IsSpace(s[8])
  {
    if "async" <= s[3..] {
      forall k | 3 <= k < 8 ensures s[k] != ':' {
        assert s[k] == s[3..][k - 3] == "async"[k - 3];
      }
      assert NonSpaceAt(s, 8);
    }
  }

  /** One step of the SpiderMonkey lazy name: no `@` at `q`. */
  lemma LazyAtSkip(s: string, q: nat)
    requires 0 < q < |s| && !IsTerminator(s[q - 1]) && s[q] != '@'
    ensures LazyAt(s, q) == LazyAt(s, q + 1)
  {
  }

  /** Over text without `@` or line terminators the SpiderMonkey lazy
      name extends up to `e` unchanged. */
  lemma {:induction false} LazyAtTo(s: string, q: nat, e: nat)
    requires 0 < q <= e < |s|
    requires forall i :: 0 <= i < e ==> s[i] != '@' && !IsTerminator(s[i])
    ensures LazyAt(s, q) == LazyAt(s, e)
    decreases e - q
  {
    if q < e {
      LazyAtSkip(s, q);
      LazyAtTo(s, q + 1, e);
    }
  }

  /** `name@file:line:column` laid out by index. */
  lemma GeckoAt(s: string, e: nat, f: nat, g: nat, h: nat)
    requires 0 < e && e + 1 < f && f + 1 < g && g + 1 < h && |s| == h && s[e] == '@'
    requires forall i :: 0 <= i < e ==> s[i] != '@' && !IsTerminator(s[i])
    requires forall i :: e + 1 <= i < f ==> s[i] != ':' && !IsTerminator(s[i])
    requires s[f] == ':' && s[g] == ':'
    requires forall i :: f < i < h && i != g ==> IsDigit(s[i])
    ensures MatchGecko(s) == Some(Frame(s[..e], s[e + 1..f], s[f + 1..g], s[g + 1..h]))
  {
    FileAtEnd(s, e + 1, f, g, h, false);
    LazyAtTo(s, 1, e);
  }

  /** A slice equal to `t` holds `t` character by character. */
  lemma SliceChars(s: string, a: nat, b: nat, t: string)
    requires a <= b <= |s| && s[a..b] == t
    ensures forall i :: a <= i < b ==> s[i] == t[i - a]
  {
    forall i | a <= i < b ensures s[i] == t[i - a] {
      assert s[a..b][i - a] == s[i];
    }
  }

  /** Where the parts of `at name (file:line:column)` sit. */
  lemma NamedLayout(s: string, name: string, file: string, line: string, column: string)
    requires s == "at " + name + " (" + file + ":" + line + ":" + column + ")"
    ensures var e := 3 + |name|; var f := e + 2 + |file|; var g := f + 1 + |line|; var h := g + 1 + |column|;
      && |s| == h + 1 && "at" <= s && s[2] == ' ' && s[3..e] == name && s[e] == ' ' && s[e + 1] == '('
      && s[e + 2..f] == file && s[f] == ':' && s[f + 1..g] == line && s[g] == ':' && s[g + 1..h] == column
      && s[h] == ')'
  {
  }

  /** The character facts the named layout gives. */
  lemma NamedChars(s: string, e: nat, f: nat, g: nat, h: nat, name: string, file: string, line: string, column: string)
    requires 3 <= e && e + 2 <= f && f + 1 <= g && g + 1 <= h <= |s|
    requires s[3..e] == name && s[e + 2..f] == file && s[f + 1..g] == line && s[g + 1..h] == column
    requires NoSpace(name) && ':' !in file && NoTerminator(file) && AllDigits(line) && AllDigits(column)
    ensures forall i :: 3 <= i < e ==> !IsSpace(s[i])
    ensures forall i :: e + 2 <= i < f ==> s[i] != ':' && !IsTerminator(s[i])
    ensures forall i :: f < i < h && i != g ==> IsDigit(s[i])
  {
    SliceChars(s, 3, e, name);
    SliceChars(s, e + 2, f, file);
    SliceChars(s, f + 1, g, line);
    SliceChars(s, g + 1, h, column);
    forall i | e + 2 <= i < f ensures s[i] != ':' && !IsTerminator(s[i]) {
      assert file[i - e - 2] in file;
    }
  }

  /** `at name (file:line:column)` with a name free of white space (and
      not `async`) and a file free of `:` and line terminators matches
      the V8 pattern with exactly those groups, and gives that frame. */
  lemma V8NamedMatches(name: string, file: string, line: string, column: string, clean: string -> string)
    requires |name| > 0 && name != "async" && NoSpace(name)
    requires |file| > 0 && ':' !in file && NoTerminator(file)
    requires |line| > 0 && AllDigits(line) && |column| > 0 && AllDigits(column)
    ensures var s := "at " + name + " (" + file + ":" + line + ":" + column + ")";
      && MatchV8(s) == Some(V8Match(Some(name), file, line, column))
      && LineFrame(s, clean) == Some(Frame(name, clean(file), line, column))
  {
    var s := "at " + name + " (" + file + ":" + line + ":" + column + ")";
    var e := 3 + |name|; var f := e + 2 + |file|; var g := f + 1 + |line|; var h := g + 1 + |column|;
    NamedLayout(s, name, file, line, column);
    NamedChars(s, e, f, g, h, name, file, line, column);
    V8NamedAt(s, e, f, g, h);
    assert MatchV8(s) == Some(V8Match(Some(s[3..e]), s[e + 2..f], s[f + 1..g], s[g + 1..h]));
    assert s[3..e] == name && s[e + 2..f] == file && s[f + 1..g] == line && s[g + 1..h] == column;
  }

  /** Where the parts of `at file:line:column` sit. */
  lemma PlainLayout(s: string, file: string, line: string, column: string)
    requires s == "at " + file + ":" + line + ":" + column
    ensures var f := 3 + |file|; var g := f + 1 + |line|; var h := g + 1 + |column|;
      && |s| == h && "at" <= s && s[2] == ' ' && s[3..f] == file && s[f] == ':' && s[f + 1..g] == line
      && s[g] == ':' && s[g + 1..h] == column
  {
  }

  /** The character facts the plain layout gives. */
  lemma PlainChars(s: string, f: nat, g: nat, h: nat, file: string, line: string, column: string)
    requires 3 <= f && f + 1 <= g && g + 1 <= h <= |s|
    requires s[3..f] == file && s[f + 1..g] == line && s[g + 1..h] == column
    requires ':' !in file && NoSpace(file) && AllDigits(line) && AllDigits(column)
    ensures forall i :: 3 <= i < f ==> s[i] != ':' && !IsSpace(s[i])
    ensures forall i :: f < i < h && i != g ==> IsDigit(s[i])
  {
    SliceChars(s, 3, f, file);
    SliceChars(s, f + 1, g, line);
    SliceChars(s, g + 1, h, column);
    forall i | 3 <= i < f ensures s[i] != ':' && !IsSpace(s[i]) {
      assert file[i - 3] in file;
    }
  }

  /** `at file:line:column` with a file free of white space and `:`, not
      starting with `(`, matches the V8 pattern without a name, and gives
      an `anonymous` frame. */
  lemma V8PlainMatches(file: string, line: string, column: string, clean: string -> string)
    requires |file| > 0 && file[0] != '(' && ':' !in file && NoSpace(file)
    requires |line| > 0 && AllDigits(line) && |column| > 0 && AllDigits(column)
    ensures var s := "at " + file + ":" + line + ":" + column;
      && MatchV8(s) == Some(V8Match(None, file, line, column))
      && LineFrame(s, clean) == Some(Frame("anonymous", clean(file), line, column))
  {
    var s := "at " + file + ":" + line + ":" + column;
    var f := 3 + |file|; var g := f + 1 + |line|; var h := g + 1 + |column|;
    PlainLayout(s, file, line, column);
    PlainChars(s, f, g, h, file, line, column);
    V8PlainAt(s, f, g, h);
    assert MatchV8(s) == Some(V8Match(None, s[3..f], s[f + 1..g], s[g + 1..h]));
    assert s[3..f] == file && s[f + 1..g] == line && s[g + 1..h] == column;
  }

  /** Where the parts of `name@file:line:column` sit. */
  lemma GeckoLayout(s: string, name: string, file: string, line: string, column: string)
    requires s == name + "@" + file + ":" + line + ":" + column
    ensures var e := |name|; var f := e + 1 + |file|; var g := f + 1 + |line|; var h := g + 1 + |column|;
      && |s| == h && s[..e] == name && s[e] == '@' && s[e + 1..f] == file && s[f] == ':'
      && s[f + 1..g] == line && s[g] == ':' && s[g + 1..h] == column
  {
  }

  /** The character facts the SpiderMonkey layout gives. */
  lemma GeckoChars(s: string, e: nat, f: nat, g: nat, h: nat, name: string, file: string, line: string, column: string)
    requires e + 1 <= f && f + 1 <= g && g + 1 <= h <= |s|
    requires s[..e] == name && s[e + 1..f] == file && s[f + 1..g] == line && s[g + 1..h] == column
    requires '@' !in name && NoTerminator(name) && ':' !in file && NoTerminator(file)
    requires AllDigits(line) && AllDigits(column)
    ensures forall i :: 0 <= i < e ==> s[i] != '@' && !IsTerminator(s[i])
    ensures forall i :: e + 1 <= i < f ==> s[i] != ':' && !IsTerminator(s[i])
    ensures forall i :: f < i < h && i != g ==> IsDigit(s[i])
  {
    SliceChars(s, 0, e, name);
    SliceChars(s, e + 1, f, file);
    SliceChars(s, f + 1, g, line);
    SliceChars(s, g + 1, h, column);
    forall i | 0 <= i < e ensures s[i] != '@' && !IsTerminator(s[i]) {
      assert name[i] in name;
    }
    forall i | e + 1 <= i < f ensures s[i] != ':' && !IsTerminator(s[i]) {
      assert file[i - e - 1] in file;
    }
  }

  /** `name@file:line:column` with a name free of `@` and a file free of
      `:`, neither holding a line terminator, matches the SpiderMonkey
      pattern with exactly those groups. */
  lemma GeckoMatches(name: string, file: string, line: string, column: string)
    requires |name| > 0 && '@' !in name && NoTerminator(name)
    requires |file| > 0 && ':' !in file && NoTerminator(file)
    requires |line| > 0 && AllDigits(line) && |column| > 0 && AllDigits(column)
    ensures MatchGecko(name + "@" + file + ":" + line + ":" + column) == Some(Frame(name, file, line, column))
  {
    var s := name + "@" + file + ":" + line + ":" + column;
    var e := |name|; var f := e + 1 + |file|; var g := f + 1 + |line|; var h := g + 1 + |column|;
    GeckoLayout(s, name, file, line, column);
    GeckoChars(s, e, f, g, h, name, file, line, column);
    GeckoAt(s, e, f, g, h);
    assert MatchGecko(s) == Some(Frame(s[..e], s[e + 1..f], s[f + 1..g], s[g + 1..h]));
    assert s[..e] == name && s[e + 1..f] == file && s[f + 1..g] == line && s[g + 1..h] == column;
  }
}
