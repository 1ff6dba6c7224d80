/** String helpers with the meaning the JavaScript built-ins give them:
    `indexOf`, `startsWith`, `trim`, `split`, number-to-string conversion
    of integers and `parseInt(s, 10)`. */
module Text {
  import opened Wrappers

  predicate IsDigit(c: char)
  {
    '0' <= c <= '9'
  }

  predicate AllDigits(s: string)
  {
    forall i :: 0 <= i < |s| ==> IsDigit(s[i])
  }

  /** The characters `String.prototype.trim` removes and `\s` matches:
      WhiteSpace and LineTerminator of ECMAScript. */
  predicate IsSpace(c: char)
  {
    || c == '\t' || c == '\n' || c == '\U{000B}' || c == '\U{000C}' || c == '\r'
    || c == ' ' || c == '\U{00A0}' || c == '\U{1680}'
    || ('\U{2000}' <= c <= '\U{200A}')
    || c == '\U{2028}' || c == '\U{2029}' || c == '\U{202F}' || c == '\U{205F}'
    || c == '\U{3000}' || c == '\U{FEFF}'
  }

  /** `hay.indexOf(needle) !== -1`. */
  predicate Contains(hay: string, needle: string)
    decreases |hay|
  {
    needle <= hay || (|hay| > 0 && Contains(hay[1..], needle))
  }

  lemma {:induction false} ContainsSuffix(pre: string, hay: string, needle: string)
    requires Contains(hay, needle)
    ensures Contains(pre + hay, needle)
    decreases |pre|
  {
    if |pre| == 0 {
      assert pre + hay == hay;
    } else {
      ContainsSuffix(pre[1..], hay, needle);
      assert (pre + hay)[1..] == pre[1..] + hay;
    }
  }

  /** Every string occurs in any string that has it as a slice. */
  lemma {:induction false} ContainsInfix(pre: string, needle: string, post: string)
    ensures Contains(pre + needle + post, needle)
  {
    assert needle <= needle + post;
    ContainsSuffix(pre, needle + post, needle);
    assert pre + needle + post == pre + (needle + post);
  }

  /** The longest prefix of `s` free of `c`: everything before the first
      `c`, or all of `s`. */
  function Before(s: string, c: char): (r: string)
    ensures r <= s && c !in r
    ensures |r| < |s| ==> s[|r|] == c
    ensures |r| < |s| <==> c in s
  {
    if |s| == 0 || s[0] == c then "" else
      assert c in s ==> c in s[1..] by {
        if c in s {
          var i :| 0 <= i < |s| && s[i] == c;
          assert s[1..][i - 1] == c;
        }
      }
      [s[0]] + Before(s[1..], c)
  }

  /** Everything after the last `c` of `s`, or all of `s` when it has none. */
  function AfterLast(s: string, c: char): (r: string)
    ensures c !in r
    decreases |s|
  {
    if |s| == 0 || s[|s| - 1] == c then ""
    else AfterLast(s[..|s| - 1], c) + [s[|s| - 1]]
  }

  /** The text after the last separator is what was written after it. */
  lemma {:induction false} AfterLastOf(a: string, c: char, d: string)
    requires c !in d
    ensures AfterLast(a + [c] + d, c) == d
    decreases |d|
  {
    var s := a + [c] + d;
    if |d| == 0 {
      assert s[|s| - 1] == c;
    } else {
      assert s[..|s| - 1] == a + [c] + d[..|d| - 1];
      AfterLastOf(a, c, d[..|d| - 1]);
      assert d == d[..|d| - 1] + [d[|d| - 1]];
    }
  }

  /** The text before the first `c` is what was written before it. */
  lemma {:induction false} BeforeOf(a: string, c: char, b: string)
    requires c !in a
    ensures Before(a + [c] + b, c) == a
    decreases |a|
  {
    if |a| > 0 {
      assert (a + [c] + b)[1..] == a[1..] + [c] + b;
      BeforeOf(a[1..], c, b);
    }
  }

  /** `s.trimStart()`. */
  function TrimStart(s: string): (r: string)
    ensures |r| <= |s| && r == s[|s| - |r|..]
    ensures |r| > 0 ==> !IsSpace(r[0])
    ensures forall i :: 0 <= i < |s| - |r| ==> IsSpace(s[i])
  {
    if |s| > 0 && IsSpace(s[0]) then TrimStart(s[1..]) else s
  }

  /** `s.trimEnd()`. */
  function TrimEnd(s: string): (r: string)
    ensures |r| <= |s| && r == s[..|r|]
    ensures |r| > 0 ==> !IsSpace(r[|r| - 1])
    ensures forall i :: |r| <= i < |s| ==> IsSpace(s[i])
  {
    if |s| > 0 && IsSpace(s[|s| - 1]) then TrimEnd(s[..|s| - 1]) else s
  }

  /** `s.trim()`. */
  function Trim(s: string): (r: string)
    ensures |r| > 0 ==> !IsSpace(r[0]) && !IsSpace(r[|r| - 1])
    ensures r == "" <==> forall i :: 0 <= i < |s| ==> IsSpace(s[i])
  {
    TrimEnd(TrimStart(s))
  }

  /** Digits have no white space to trim. */
  lemma TrimDigits(d: string)
    requires |d| > 0 && AllDigits(d)
    ensures Trim(d) == d
  {
    assert IsDigit(d[0]) && IsDigit(d[|d| - 1]);
    assert TrimStart(d) == d;
    assert TrimEnd(d) == d;
  }

  /** `s.split(sep)` for a one-character separator: the pieces between
      separators, in order, always at least one. */
  function Split(s: string, sep: char): (parts: seq<string>)
    ensures |parts| >= 1
    ensures forall i :: 0 <= i < |parts| ==> sep !in parts[i]
    decreases |s|
  {
    if |s| == 0 then [""]
    else
      var rest := Split(s[1..], sep);
      if s[0] == sep then [""] + rest
      else [[s[0]] + rest[0]] + rest[1..]
  }

  /** Splitting at one separator occurrence splits the piece list there. */
  lemma {:induction false} SplitAppend(a: string, b: string, sep: char)
    requires sep !in a
    ensures Split(a + [sep] + b, sep) == Split(a, sep) + Split(b, sep)
    decreases |a|
  {
    if |a| == 0 {
      assert a + [sep] + b == [sep] + b;
      assert ([sep] + b)[1..] == b;
    } else {
      SplitAppend(a[1..], b, sep);
      assert (a + [sep] + b)[1..] == a[1..] + [sep] + b;
      assert (a + [sep] + b)[0] == a[0] != sep;
      FirstPieceJoin(a[0], Split(a[1..], sep), Split(b, sep));
    }
  }

  lemma FirstPieceJoin(c: char, x: seq<string>, y: seq<string>)
    requires |x| >= 1
    ensures [[c] + (x + y)[0]] + (x + y)[1..] == ([[c] + x[0]] + x[1..]) + y
  {
    assert (x + y)[1..] == x[1..] + y;
  }

  /** Decimal digits of a natural number, most significant first. */
  function NatToDigits(n: nat): (s: string)
    ensures |s| > 0 && AllDigits(s)
    ensures |s| > 1 ==> s[0] != '0'
    ensures DigitsValue(s) == n
  {
    if n < 10 then [('0' as int + n) as char]
    else
      var p := NatToDigits(n / 10);
      var s := p + [('0' as int + n % 10) as char];
      assert s[..|s| - 1] == p;
      s
  }

  /** The number an all-digit string denotes in base 10. */
  function DigitsValue(s: string): nat
    requires AllDigits(s)
  {
    if |s| == 0 then 0
    else DigitsValue(s[..|s| - 1]) * 10 + (s[|s| - 1] as int - '0' as int)
  }

  /** `String(k)` for an integer `k`. */
  function IntToDecimal(k: int): (s: string)
    ensures k >= 0 ==> '-' !in s
  {
    if k < 0 then "-" + NatToDigits(-k) else NatToDigits(k)
  }

  /** The longest all-digit prefix of `s`. */
  function DigitPrefix(s: string): (d: string)
    ensures d <= s && AllDigits(d)
    ensures |d| < |s| ==> !IsDigit(s[|d|])
  {
    if |s| > 0 && IsDigit(s[0]) then [s[0]] + DigitPrefix(s[1..]) else ""
  }

  /** `parseInt(s, 10)`: leading white space is skipped, one sign is
      accepted, and the longest run of decimal digits is read; `None`
      stands for `NaN` (no digit at all). */
  function ParseInt(s: string): (r: Option<int>)
    ensures r.None? <==> |DigitPrefix(SignBody(TrimStart(s)))| == 0
  {
    var t := TrimStart(s);
    var d := DigitPrefix(SignBody(t));
    var magnitude: int := if |d| == 0 then 0 else DigitsValue(d);
    if |d| == 0 then None
    else if |t| > 0 && t[0] == '-' then Some(-magnitude)
    else Some(magnitude)
  }

  /** What follows an optional leading sign. */
  function SignBody(t: string): string
  {
    if |t| > 0 && (t[0] == '-' || t[0] == '+') then t[1..] else t
  }

  /** `parseInt` reads back every integer written in decimal. */
  lemma {:induction false} ParseIntOfDecimal(k: int)
    ensures ParseInt(IntToDecimal(k)) == Some(k)
  {
    var digits := NatToDigits(if k < 0 then -k else k);
    DigitPrefixOfDigits(digits);
    var s := IntToDecimal(k);
    if k < 0 {
      assert s == "-" + digits;
      assert !IsSpace(s[0]);
      assert TrimStart(s) == s;
      assert s[1..] == digits;
      assert SignBody(s) == digits;
    } else {
      assert s == digits;
      assert !IsSpace(s[0]);
      assert TrimStart(s) == s;
      assert SignBody(s) == digits;
    }
  }

  /** A decimal is a sign and digits only. */
  lemma DecimalChars(k: int, c: char)
    requires c in IntToDecimal(k)
    ensures c == '-' || IsDigit(c)
  {
    var digits := NatToDigits(if k < 0 then -k else k);
    if c in digits {
      var j :| 0 <= j < |digits| && digits[j] == c;
    }
  }

  lemma {:induction false} DigitPrefixOfDigits(d: string)
    requires AllDigits(d)
    ensures DigitPrefix(d) == d
    decreases |d|
  {
    if |d| > 0 {
      DigitPrefixOfDigits(d[1..]);
    }
  }
}
