/**
  The JavaScript string operations the modelled code relies on: `trim`, `split` on one
  character, `join`, `startsWith`, `includes`, `indexOf`, ASCII case mapping and the
  decimal / hexadecimal renderings of `Number.prototype.toString`.
  A JavaScript string is modelled as a sequence of Unicode characters. Where the code counts
  UTF-16 code units, a character above U+FFFF is taken as its two surrogates (`Utf16`,
  `CodeUnits`); elsewhere a length or an index counts characters.
*/
module Text {
  import opened Wrappers

  /** The characters JavaScript's `\s` and `String.prototype.trim` treat as white space
      (WhiteSpace and LineTerminator of ECMAScript). */
  predicate IsJsSpace(c: char) {
    c == '\t' || c == '\n' || c == '\U{000B}' || c == '\U{000C}' || c == '\r' || c == ' ' ||
    c == '\U{00A0}' || c == '\U{1680}' || ('\U{2000}' <= c <= '\U{200A}') ||
    c == '\U{2028}' || c == '\U{2029}' || c == '\U{202F}' || c == '\U{205F}' ||
    c == '\U{3000}' || c == '\U{FEFF}'
  }

  /** `s.replace(/^\s+/, "")` */
  function TrimStart(s: string): (r: string)
    ensures |r| <= |s|
    ensures r == s[|s| - |r|..]
    ensures r == [] || !IsJsSpace(r[0])
    ensures forall i :: 0 <= i < |s| - |r| ==> IsJsSpace(s[i])
  {
    if |s| > 0 && IsJsSpace(s[0]) then TrimStart(s[1..]) else s
  }

  function TrimEnd(s: string): (r: string)
    ensures |r| <= |s|
    ensures r == s[..|r|]
    ensures r == [] || !IsJsSpace(r[|r| - 1])
    ensures forall i :: |r| <= i < |s| ==> IsJsSpace(s[i])
  {
    if |s| > 0 && IsJsSpace(s[|s| - 1]) then TrimEnd(s[..|s| - 1]) else s
  }

  /** `String.prototype.trim` */
  function Trim(s: string): (r: string)
    ensures |r| <= |s|
    ensures r == [] || (!IsJsSpace(r[0]) && !IsJsSpace(r[|r| - 1]))
  {
    TrimEnd(TrimStart(s))
  }

  /** A string with no white space at either end is its own trim. */
  lemma TrimmedIsFixed(s: string)
    requires s == [] || (!IsJsSpace(s[0]) && !IsJsSpace(s[|s| - 1]))
    ensures Trim(s) == s
  {
  }

  lemma TrimIdempotent(s: string)
    ensures Trim(Trim(s)) == Trim(s)
  {
    TrimmedIsFixed(Trim(s));
  }

  predicate StartsWith(s: string, prefix: string) {
    |prefix| <= |s| && s[..|prefix|] == prefix
  }

  /** `s.includes(p)` */
  predicate Contains(s: string, p: string)
    decreases |s|
  {
    StartsWith(s, p) || (|s| > 0 && Contains(s[1..], p))
  }

  /** `s.indexOf(p)` as an option: the first position at which `p` occurs. */
  function IndexOf(s: string, p: string): (r: Option<nat>)
    ensures r.Some? ==> r.value <= |s| && StartsWith(s[r.value..], p)
    ensures r.Some? ==> forall j :: 0 <= j < r.value ==> !StartsWith(s[j..], p)
    ensures r.None? <==> !Contains(s, p)
    decreases |s|
  {
    if StartsWith(s, p) then Some(0)
    else if |s| == 0 then None
    else match IndexOf(s[1..], p)
      case None => None
      case Some(k) =>
        assert forall j :: 1 <= j < k + 1 ==> s[j..] == s[1..][j - 1..];
        Some(k + 1)
  }

  /** The position of the first occurrence of character `c` (`indexOf` on one character). */
  function IndexOfChar(s: string, c: char): (r: Option<nat>)
    ensures r.Some? ==> r.value < |s| && s[r.value] == c && c !in s[..r.value]
    ensures r.None? ==> c !in s
  {
    if |s| == 0 then None
    else if s[0] == c then Some(0)
    else match IndexOfChar(s[1..], c)
      case None => None
      case Some(k) => assert s[..k + 1] == [s[0]] + s[1..][..k]; Some(k + 1)
  }

  /** The position of the last occurrence of character `c` (`lastIndexOf`). */
  function LastIndexOfChar(s: string, c: char): (r: Option<nat>)
    ensures r.Some? ==> r.value < |s| && s[r.value] == c && c !in s[r.value + 1..]
    ensures r.None? ==> c !in s
  {
    if |s| == 0 then None
    else if s[|s| - 1] == c then Some(|s| - 1)
    else match LastIndexOfChar(s[..|s| - 1], c)
      case None => None
      case Some(k) =>
        assert s[k + 1..] == s[..|s| - 1][k + 1..] + [s[|s| - 1]];
        Some(k)
  }

  /** `xs.reverse()`, as a value. */
  function Reverse<T>(xs: seq<T>): (r: seq<T>)
    ensures |r| == |xs|
    ensures forall i :: 0 <= i < |xs| ==> r[i] == xs[|xs| - 1 - i]
  {
    if |xs| == 0 then [] else Reverse(xs[1..]) + [xs[0]]
  }

  /** `parts.join(sep)` */
  function Join(parts: seq<string>, sep: string): string {
    if |parts| == 0 then ""
    else if |parts| == 1 then parts[0]
    else parts[0] + sep + Join(parts[1..], sep)
  }

  /** Joining a list is joining all but its last piece, then the separator and the last. */
  lemma {:induction false} JoinSnoc(parts: seq<string>, last: string, sep: string)
    ensures Join(parts + [last], sep) == if |parts| == 0 then last else Join(parts, sep) + sep + last
  {
    if |parts| > 1 {
      assert (parts + [last])[1..] == parts[1..] + [last];
      JoinSnoc(parts[1..], last, sep);
    } else if |parts| == 1 {
      assert (parts + [last])[1..] == [last];
    }
  }

  /** `s.split(c)` for a one-character separator: never empty, no piece contains `c`. */
  function Split(s: string, c: char): (r: seq<string>)
    ensures |r| >= 1
    ensures forall i :: 0 <= i < |r| ==> c !in r[i]
  {
    if |s| == 0 then [""]
    else if s[0] == c then [""] + Split(s[1..], c)
    else
      var rest := Split(s[1..], c);
      [[s[0]] + rest[0]] + rest[1..]
  }

  lemma {:induction false} JoinSplit(s: string, c: char)
    ensures Join(Split(s, c), [c]) == s
  {
    if |s| == 0 {
    } else if s[0] == c {
      JoinSplit(s[1..], c);
    } else {
      JoinSplit(s[1..], c);
      var rest := Split(s[1..], c);
      if |rest| > 1 {
        assert ([[s[0]] + rest[0]] + rest[1..])[1..] == rest[1..];
      }
    }
  }

  lemma {:induction false} SplitJoin(parts: seq<string>, c: char)
    requires |parts| >= 1
    requires forall i :: 0 <= i < |parts| ==> c !in parts[i]
    ensures Split(Join(parts, [c]), c) == parts
  {
    if |parts| == 1 {
      SplitNoSep(parts[0], c);
    } else {
      SplitJoin(parts[1..], c);
      SplitPrefix(parts[0], Join(parts[1..], [c]), c);
    }
  }

  lemma {:induction false} SplitNoSep(s: string, c: char)
    requires c !in s
    ensures Split(s, c) == [s]
  {
    if |s| > 0 {
      assert c !in s[1..];
      SplitNoSep(s[1..], c);
      assert [s[0]] + s[1..] == s;
    }
  }

  lemma {:induction false} SplitPrefix(p: string, rest: string, c: char)
    requires c !in p
    ensures Split(p + [c] + rest, c) == [p] + Split(rest, c)
  {
    if |p| == 0 {
      assert p + [c] + rest == [c] + rest;
      assert ([c] + rest)[1..] == rest;
    } else {
      var whole := p + [c] + rest;
      assert whole[0] == p[0] && whole[1..] == p[1..] + [c] + rest;
      assert c !in p[1..];
      SplitPrefix(p[1..], rest, c);
      assert [p[0]] + p[1..] == p;
    }
  }

  function AsciiLowerChar(c: char): char {
    if 'A' <= c <= 'Z' then (c as int + 32) as char else c
  }

  function AsciiUpperChar(c: char): char {
    if 'a' <= c <= 'z' then (c as int - 32) as char else c
  }

  function AsciiLower(s: string): (r: string)
    ensures |r| == |s|
    ensures forall i :: 0 <= i < |s| ==> r[i] == AsciiLowerChar(s[i])
  {
    if |s| == 0 then "" else [AsciiLowerChar(s[0])] + AsciiLower(s[1..])
  }

  function AsciiUpper(s: string): (r: string)
    ensures |r| == |s|
    ensures forall i :: 0 <= i < |s| ==> r[i] == AsciiUpperChar(s[i])
  {
    if |s| == 0 then "" else [AsciiUpperChar(s[0])] + AsciiUpper(s[1..])
  }

  predicate IsAsciiDigit(c: char) { '0' <= c <= '9' }

  predicate IsAsciiLetter(c: char) { 'A' <= c <= 'Z' || 'a' <= c <= 'z' }

  function DecimalDigit(d: nat): (c: char)
    requires d < 10
    ensures IsAsciiDigit(c) && c as int - '0' as int == d
  {
    (d + '0' as int) as char
  }

  /** `String(n)` for a non-negative integer: its decimal digits, no leading zero. */
  function NatToDecimal(n: nat): (r: string)
    ensures |r| >= 1 && forall i :: 0 <= i < |r| ==> IsAsciiDigit(r[i])
    ensures n < 10 <==> |r| == 1
  {
    if n < 10 then [DecimalDigit(n)] else NatToDecimal(n / 10) + [DecimalDigit(n % 10)]
  }

  /** Distinct numbers have distinct decimal renderings. */
  lemma {:induction false} NatToDecimalInjective(n: nat, m: nat)
    requires NatToDecimal(n) == NatToDecimal(m)
    ensures n == m
  {
    if n >= 10 && m >= 10 {
      var a, b := NatToDecimal(n), NatToDecimal(m);
      assert a[..|a| - 1] == NatToDecimal(n / 10);
      assert b[..|b| - 1] == NatToDecimal(m / 10);
      NatToDecimalInjective(n / 10, m / 10);
      assert a[|a| - 1] == DecimalDigit(n % 10);
      assert b[|b| - 1] == DecimalDigit(m % 10);
    }
  }

  /** `String(i)` for an integer. */
  function IntToDecimal(i: int): string {
    if i < 0 then "-" + NatToDecimal(-i) else NatToDecimal(i)
  }

  function HexDigit(d: nat): (c: char)
    requires d < 16
  {
    if d < 10 then DecimalDigit(d) else (d - 10 + 'a' as int) as char
  }

  /** `n.toString(16)` for a non-negative integer: lower-case digits, no leading zero. */
  function NatToHex(n: nat): (r: string)
    ensures |r| >= 1
    ensures n < 16 <==> |r| == 1
  {
    if n < 16 then [HexDigit(n)] else NatToHex(n / 16) + [HexDigit(n % 16)]
  }

  /** The value of a hexadecimal digit of either case, as `parseInt(c, 16)` reads it. */
  function HexValue(c: char): Option<nat> {
    if '0' <= c <= '9' then Some(c as int - '0' as int)
    else if 'a' <= c <= 'f' then Some(c as int - 'a' as int + 10)
    else if 'A' <= c <= 'F' then Some(c as int - 'A' as int + 10)
    else None
  }

  lemma HexDigitValue(d: nat)
    requires d < 16
    ensures HexValue(HexDigit(d)) == Some(d)
  {
  }

  /** `s.split(c).map(p => p.trim()).filter(Boolean)` */
  function TrimmedPieces(s: string, c: char): (r: seq<string>)
    ensures forall i :: 0 <= i < |r| ==> r[i] != ""
  {
    TrimmedNonBlank(Split(s, c))
  }

  /** `parts.map(p => p.trim()).filter(Boolean)` */
  function TrimmedNonBlank(parts: seq<string>): (r: seq<string>)
    ensures |r| <= |parts|
    ensures forall i :: 0 <= i < |r| ==> r[i] != ""
  {
    NonBlank(seq(|parts|, i requires 0 <= i < |parts| => Trim(parts[i])))
  }

  /** `filter(Boolean)` on strings */
  function NonBlank(parts: seq<string>): (r: seq<string>)
    ensures |r| <= |parts|
    ensures forall i :: 0 <= i < |r| ==> r[i] != "" && r[i] in parts
  {
    if |parts| == 0 then []
    else
      var init := parts[..|parts| - 1];
      assert forall p :: p in init ==> p in parts;
      NonBlank(init) + (if parts[|parts| - 1] == "" then [] else [parts[|parts| - 1]])
  }

  /** A non-empty string with no white space at either end. */
  predicate Unpadded(p: string) {
    p != "" && !IsJsSpace(p[0]) && !IsJsSpace(p[|p| - 1])
  }

  lemma {:induction false} NonBlankKeepsAll(parts: seq<string>)
    requires forall i :: 0 <= i < |parts| ==> parts[i] != ""
    ensures NonBlank(parts) == parts
  {
    if |parts| > 0 {
      NonBlankKeepsAll(parts[..|parts| - 1]);
    }
  }

  lemma {:induction false} NonBlankAppend(a: seq<string>, b: seq<string>)
    ensures NonBlank(a + b) == NonBlank(a) + NonBlank(b)
    decreases |b|
  {
    if |b| == 0 {
      assert a + b == a;
    } else {
      assert (a + b)[..|a + b| - 1] == a + b[..|b| - 1];
      NonBlankAppend(a, b[..|b| - 1]);
    }
  }

  lemma TrimAllUnpadded(parts: seq<string>)
    requires forall i :: 0 <= i < |parts| ==> Unpadded(parts[i])
    ensures seq(|parts|, i requires 0 <= i < |parts| => Trim(parts[i])) == parts
  {
    forall i | 0 <= i < |parts|
      ensures Trim(parts[i]) == parts[i]
    {
      TrimmedIsFixed(parts[i]);
    }
  }

  /** Trimming only removes characters. */
  lemma TrimKeepsOut(s: string, c: char)
    requires c !in s
    ensures c !in Trim(s)
  {
    var t := TrimStart(s);
    assert t == s[|s| - |t|..];
    assert TrimEnd(t) == t[..|TrimEnd(t)|];
  }

  /** Every piece is trimmed, non-empty and free of the separator. */
  lemma TrimmedPiecesShape(s: string, c: char)
    ensures forall i :: 0 <= i < |TrimmedPieces(s, c)| ==>
      Unpadded(TrimmedPieces(s, c)[i]) && c !in TrimmedPieces(s, c)[i]
  {
    var parts := Split(s, c);
    var trimmed := seq(|parts|, i requires 0 <= i < |parts| => Trim(parts[i]));
    var r := NonBlank(trimmed);
    assert TrimmedPieces(s, c) == r;
    forall i | 0 <= i < |r|
      ensures Unpadded(r[i]) && c !in r[i]
    {
      assert r[i] in trimmed;
      var j :| 0 <= j < |trimmed| && trimmed[j] == r[i];
      var p := Trim(parts[j]);
      assert p == r[i] && p != "";
      assert !IsJsSpace(p[0]) && !IsJsSpace(p[|p| - 1]);
      TrimKeepsOut(parts[j], c);
    }
  }

  /** Text without the separator in front of another text lengthens its first piece. */
  lemma {:induction false} SplitGlue(p: string, s: string, c: char)
    requires c !in p
    ensures Split(p + s, c) == [p + Split(s, c)[0]] + Split(s, c)[1..]
  {
    if |p| == 0 {
      var pieces := Split(s, c);
      assert p + s == s && p + pieces[0] == pieces[0];
      assert pieces == [pieces[0]] + pieces[1..];
    } else {
      var whole := p + s;
      var rest := Split(p[1..] + s, c);
      assert Split(whole, c) == [[p[0]] + rest[0]] + rest[1..] by {
        assert whole[0] == p[0] && whole[1..] == p[1..] + s;
      }
      assert rest == [p[1..] + Split(s, c)[0]] + Split(s, c)[1..] by {
        assert c !in p[1..];
        SplitGlue(p[1..], s, c);
      }
      assert [p[0]] + (p[1..] + Split(s, c)[0]) == p + Split(s, c)[0];
    }
  }

  /** Splitting two texts joined by the separator splits each of them. */
  lemma {:induction false} SplitAppend(a: string, b: string, c: char)
    ensures Split(a + [c] + b, c) == Split(a, c) + Split(b, c)
  {
    if |a| == 0 {
      assert a + [c] + b == [c] + b;
      assert ([c] + b)[1..] == b;
    } else {
      var whole := a + [c] + b;
      assert whole[0] == a[0] && whole[1..] == a[1..] + [c] + b;
      SplitAppend(a[1..], b, c);
    }
  }

  /** The pieces of two texts joined by the separator are the pieces of each, in order. */
  lemma TrimmedPiecesAppend(a: string, b: string, c: char)
    ensures TrimmedPieces(a + [c] + b, c) == TrimmedPieces(a, c) + TrimmedPieces(b, c)
  {
    SplitAppend(a, b, c);
    TrimmedNonBlankAppend(Split(a, c), Split(b, c));
  }

  lemma TrimmedNonBlankAppend(a: seq<string>, b: seq<string>)
    ensures TrimmedNonBlank(a + b) == TrimmedNonBlank(a) + TrimmedNonBlank(b)
  {
    var ta := seq(|a|, i requires 0 <= i < |a| => Trim(a[i]));
    var tb := seq(|b|, i requires 0 <= i < |b| => Trim(b[i]));
    var p := a + b;
    assert seq(|p|, i requires 0 <= i < |p| => Trim(p[i])) == ta + tb;
    NonBlankAppend(ta, tb);
  }

  /** Text containing `p` still contains it with more text around it. */
  lemma {:induction false} ContainsWithin(pre: string, s: string, post: string, p: string)
    requires Contains(s, p)
    ensures Contains(pre + s + post, p)
    decreases |pre|
  {
    if |pre| == 0 {
      ContainsBefore(s, post, p);
      assert pre + s + post == s + post;
    } else {
      ContainsWithin(pre[1..], s, post, p);
      assert (pre + s + post)[1..] == pre[1..] + s + post;
    }
  }

  lemma {:induction false} ContainsBefore(s: string, post: string, p: string)
    requires Contains(s, p)
    ensures Contains(s + post, p)
    decreases |s|
  {
    if StartsWith(s, p) {
      assert (s + post)[..|p|] == s[..|p|];
    } else {
      ContainsBefore(s[1..], post, p);
      assert (s + post)[1..] == s[1..] + post;
    }
  }

  /** `xs.map(f)` */
  function Map<A, B>(f: A -> B, xs: seq<A>): (r: seq<B>)
    ensures |r| == |xs| && forall i :: 0 <= i < |xs| ==> r[i] == f(xs[i])
  {
    seq(|xs|, i requires 0 <= i < |xs| => f(xs[i]))
  }

  /** `xs.filter(keep)`: the elements that pass, in their order. */
  function Filter(keep: string -> bool, xs: seq<string>): (r: seq<string>)
    ensures |r| <= |xs|
    ensures forall x :: x in r <==> x in xs && keep(x)
  {
    if |xs| == 0 then []
    else
      var init, last := xs[..|xs| - 1], xs[|xs| - 1];
      assert xs == init + [last];
      Filter(keep, init) + (if keep(last) then [last] else [])
  }

  lemma MapAppend<A, B>(f: A -> B, a: seq<A>, b: seq<A>)
    ensures Map(f, a + b) == Map(f, a) + Map(f, b)
  {
    var l := Map(f, a + b);
    var r := Map(f, a) + Map(f, b);
    forall i | 0 <= i < |l|
      ensures l[i] == r[i]
    {
      if i < |a| {
        assert (a + b)[i] == a[i];
      } else {
        assert (a + b)[i] == b[i - |a|];
      }
    }
  }

  /** Sixteen to the power k: the bound of a k-digit hexadecimal number. */
  function Power16(k: nat): (p: nat)
    ensures p >= 1
  {
    if k == 0 then 1 else 16 * Power16(k - 1)
  }

  // ---------------------------------------------------------------------------------------
  // UTF-16: JavaScript strings are sequences of 16-bit code units; a character above
  // U+FFFF takes two of them, a high and a low surrogate.

  /** The UTF-16 code units of one character. */
  function Utf16(c: char): (u: seq<nat>)
    ensures 1 <= |u| <= 2 && (|u| == 1 <==> c as int < 0x10000)
    ensures |u| == 1 ==> u[0] == c as int
    ensures |u| == 2 ==> 0xD800 <= u[0] < 0xDC00 && 0xDC00 <= u[1] < 0xE000
    ensures |u| == 2 ==> 0x10000 + (u[0] - 0xD800) * 0x400 + (u[1] - 0xDC00) == c as int
  {
    if c as int < 0x10000 then [c as int]
    else
      var v := c as int - 0x10000;
      [0xD800 + v / 0x400, 0xDC00 + v % 0x400]
  }

  /** `str.charCodeAt(i)` for every `i < str.length`: the string's code units. */
  function CodeUnits(s: string): (u: seq<nat>)
    ensures |u| >= |s|
  {
    if |s| == 0 then [] else Utf16(s[0]) + CodeUnits(s[1..])
  }

  /** Every code unit is a 16-bit value. */
  lemma {:induction false} CodeUnitsBound(s: string)
    ensures forall i :: 0 <= i < |CodeUnits(s)| ==> CodeUnits(s)[i] < 0x10000
  {
    if |s| > 0 {
      CodeUnitsBound(s[1..]);
      var u := Utf16(s[0]);
      var rest := CodeUnits(s[1..]);
      assert forall i :: 0 <= i < |u + rest| ==> (u + rest)[i] == if i < |u| then u[i] else rest[i - |u|];
    }
  }

  /** The code points of a string, one per character. */
  function CodePoints(s: string): (r: seq<nat>)
    ensures |r| == |s| && forall i :: 0 <= i < |s| ==> r[i] == s[i] as int
  {
    if |s| == 0 then [] else [s[0] as int] + CodePoints(s[1..])
  }

  /** Every character lies below U+10000, so each takes a single code unit. */
  predicate InBmp(s: string) {
    forall i :: 0 <= i < |s| ==> s[i] as int < 0x10000
  }

  lemma {:induction false} BmpCodeUnits(s: string)
    requires InBmp(s)
    ensures CodeUnits(s) == CodePoints(s)
  {
    if |s| > 0 {
      BmpCodeUnits(s[1..]);
    }
  }

  /** The position of a character in code-unit order: characters below the surrogate range
      first, then those above U+FFFF (whose high surrogates come next), then U+E000-U+FFFF. */
  function UnitRank(c: char): (r: nat)
    ensures r <= 0x10F7FF
  {
    if c as int < 0xD800 then c as int
    else if c as int >= 0x10000 then 0xD800 + (c as int - 0x10000)
    else c as int - 0xE000 + 0x10D800
  }

  lemma UnitRankInjective(x: char, y: char)
    requires UnitRank(x) == UnitRank(y)
    ensures x == y
  {
    assert x as int == y as int;
  }

  /** `u <= v`, comparing code unit by code unit, a proper prefix first. */
  predicate UnitsLe(u: seq<nat>, v: seq<nat>) {
    |u| == 0 || (|v| > 0 && (u[0] < v[0] || (u[0] == v[0] && UnitsLe(u[1..], v[1..]))))
  }

  lemma {:induction false} UnitsLeCommonPrefix(p: seq<nat>, u: seq<nat>, v: seq<nat>)
    ensures UnitsLe(p + u, p + v) == UnitsLe(u, v)
  {
    if |p| > 0 {
      assert (p + u)[1..] == p[1..] + u && (p + v)[1..] == p[1..] + v;
      UnitsLeCommonPrefix(p[1..], u, v);
    } else {
      assert p + u == u && p + v == v;
    }
  }

  /** Two different characters are told apart within their own code units, in the order of
      their ranks, whatever follows them. */
  lemma UnitsOfDistinct(x: char, y: char, u: seq<nat>, v: seq<nat>)
    requires x != y
    ensures UnitsLe(Utf16(x) + u, Utf16(y) + v) == (UnitRank(x) < UnitRank(y))
  {
    var a := Utf16(x) + u;
    var b := Utf16(y) + v;
    assert a[0] == Utf16(x)[0] && b[0] == Utf16(y)[0];
    if |Utf16(x)| == 2 && |Utf16(y)| == 2 && Utf16(x)[0] == Utf16(y)[0] {
      assert a[1..][0] == Utf16(x)[1] && b[1..][0] == Utf16(y)[1];
      assert Utf16(x)[1] != Utf16(y)[1];
    }
  }
}
