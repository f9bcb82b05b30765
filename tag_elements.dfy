/**
  The offline section tagger (src/TagElements.js): the identifier escaper, the element key,
  the relative path builder, the candidate picker, the per-section target catalog and the
  key-disambiguating tagging pass.
*/
module TagElements {
  import opened Wrappers
  import opened Text
  import opened Dom
  import JsValue

  // ---------------------------------------------------------------------------------------
  // cssEscape

  /** `[0-9A-Za-z_-]`: the characters copied through unchanged. */
  predicate IsSafeUnit(c: char) {
    IsAsciiDigit(c) || IsAsciiLetter(c) || c == '_' || c == '-'
  }

  /** The code units `cssEscape` copies through: `0-9`, `A-Z`, `a-z`, `_` and `-`. */
  predicate IsSafeValue(v: nat) {
    (0x30 <= v <= 0x39) || (0x41 <= v <= 0x5A) || (0x61 <= v <= 0x7A) || v == 0x5F || v == 0x2D
  }

  /** `v.toString(16).toUpperCase()` */
  function UpperHex(v: nat): string {
    AsciiUpper(NatToHex(v))
  }

  /** The escape of one code unit: a safe unit as itself, a space as `\ `, anything else as
      a backslash, its upper-case hexadecimal value and a space. */
  function EscapeValue(v: nat): string {
    if IsSafeValue(v) then [v as char]
    else if v == 0x20 then "\\ "
    else "\\" + UpperHex(v) + " "
  }

  function EscapeValues(vs: seq<nat>): string {
    if |vs| == 0 then "" else EscapeValue(vs[0]) + EscapeValues(vs[1..])
  }

  /** The last step of `cssEscape`: a leading digit `d` is rewritten as the hexadecimal
      escape `\3d `. */
  function EscapeLeadingDigit(e: string): string {
    if |e| > 0 && IsAsciiDigit(e[0]) then "\\3" + [e[0]] + " " + e[1..] else e
  }

  /** What `cssEscape` returns: every UTF-16 code unit escaped, then the leading-digit
      rewrite. A character above U+FFFF is escaped as its two surrogates. */
  function CssEscapeSpec(s: string): string {
    EscapeLeadingDigit(EscapeValues(CodeUnits(s)))
  }

  /** The escape with the same rules applied to code points instead of code units, so that
      a character above U+FFFF is written as one escape. */
  function CssEscapeCodePoints(s: string): string {
    EscapeLeadingDigit(EscapeValues(CodePoints(s)))
  }

  /** Text made of safe units, backslashes and spaces. */
  predicate EscapeAlphabet(r: string) {
    forall i :: 0 <= i < |r| ==> IsSafeUnit(r[i]) || r[i] == '\\' || r[i] == ' '
  }

  /** The escape never starts with a digit and contains only safe units, backslashes and
      spaces. A leading `-` is kept as it is, so `-1` and `-` come back unchanged. */
  lemma CssEscapeAlphabet(s: string)
    ensures var r := CssEscapeSpec(s);
      (r == [] || !IsAsciiDigit(r[0])) && EscapeAlphabet(r)
  {
    EscapeValuesAlphabet(CodeUnits(s));
  }

  lemma UpperHexAlphabet(n: nat)
    ensures forall i :: 0 <= i < |UpperHex(n)| ==> IsSafeUnit(UpperHex(n)[i])
  {
    UpperHexValue(n);
  }

  lemma {:induction false} EscapeValuesAlphabet(vs: seq<nat>)
    ensures EscapeAlphabet(EscapeValues(vs))
  {
    if |vs| > 0 {
      EscapeValuesAlphabet(vs[1..]);
      UpperHexAlphabet(vs[0]);
      var e := EscapeValue(vs[0]);
      assert EscapeAlphabet(e);
      assert EscapeValues(vs) == e + EscapeValues(vs[1..]);
    }
  }

  /** The loop of `cssEscape` over `str.charCodeAt(i)`, appending one escape per code unit
      to `result`. */
  method CssEscape(s: string) returns (result: string)
    ensures result == CssEscapeSpec(s)
  {
    var str := CodeUnits(s);
    result := "";
    for i := 0 to |str|
      invariant result + EscapeValues(str[i..]) == EscapeValues(str)
    {
      var codeUnit := str[i];
      var piece;
      if IsSafeValue(codeUnit) {
        piece := [codeUnit as char];
      } else if codeUnit == 0x20 {
        piece := "\\ ";
      } else {
        var hex := AsciiUpper(NatToHex(codeUnit));
        piece := "\\" + hex + " ";
      }
      EscapeValuesStep(str, i, result, piece);
      result := result + piece;
    }
    EscapeValuesDone(str, result);
    if |result| > 0 && IsAsciiDigit(result[0]) {
      result := "\\3" + [result[0]] + " " + result[1..];
    }
  }

  lemma EscapeValuesStep(vs: seq<nat>, i: nat, result: string, piece: string)
    requires i < |vs| && result + EscapeValues(vs[i..]) == EscapeValues(vs) && piece == EscapeValue(vs[i])
    ensures (result + piece) + EscapeValues(vs[i + 1..]) == EscapeValues(vs)
  {
    EscapeValuesAt(vs, i);
    AppendRegroup(result, piece, EscapeValues(vs[i + 1..]), EscapeValues(vs[i..]), EscapeValues(vs));
  }

  lemma EscapeValuesAt(vs: seq<nat>, i: nat)
    requires i < |vs|
    ensures EscapeValues(vs[i..]) == EscapeValue(vs[i]) + EscapeValues(vs[i + 1..])
  {
    assert vs[i..][0] == vs[i] && vs[i..][1..] == vs[i + 1..];
  }

  lemma AppendRegroup(done: string, piece: string, rest: string, todo: string, whole: string)
    requires done + todo == whole && todo == piece + rest
    ensures (done + piece) + rest == whole
  {
  }

  lemma EscapeValuesDone(vs: seq<nat>, result: string)
    requires result + EscapeValues(vs[|vs|..]) == EscapeValues(vs)
    ensures result == EscapeValues(vs)
  {
    assert vs[|vs|..] == [];
  }

  /** A string made of safe units that does not start with a digit is its own escape. */
  predicate PlainIdent(s: string) {
    (s == [] || !IsAsciiDigit(s[0])) && forall i :: 0 <= i < |s| ==> IsSafeUnit(s[i])
  }

  lemma {:induction false} EscapeValuesOfSafe(s: string)
    requires forall i :: 0 <= i < |s| ==> IsSafeUnit(s[i])
    ensures EscapeValues(CodePoints(s)) == s
  {
    if |s| > 0 {
      EscapeValuesOfSafe(s[1..]);
      assert CodePoints(s) == [s[0] as int] + CodePoints(s[1..]);
      assert (s[0] as int) as char == s[0];
      assert [s[0]] + s[1..] == s;
    }
  }

  lemma PlainIdentUnchanged(s: string)
    requires PlainIdent(s)
    ensures CssEscapeSpec(s) == s
  {
    assert InBmp(s);
    BmpCodeUnits(s);
    EscapeValuesOfSafe(s);
  }

  // The decoding side (CSS Syntax Level 3, section 4.3.7, "consume an escaped code point"),
  // used to show that the escape loses nothing.

  predicate IsCssWhitespace(c: char) {
    c == ' ' || c == '\t' || c == '\n' || c == '\r' || c == '\U{000C}'
  }

  /** The number of hexadecimal digits `s` starts with, at most `max`. */
  function HexRunLength(s: string, max: nat): (n: nat)
    ensures n <= max && n <= |s|
    ensures AllHex(s[..n])
  {
    if max == 0 || |s| == 0 || HexValue(s[0]).None? then 0 else 1 + HexRunLength(s[1..], max - 1)
  }

  function HexNumber(s: string): nat
    requires AllHex(s)
  {
    if |s| == 0 then 0 else HexNumber(s[..|s| - 1]) * 16 + HexValue(s[|s| - 1]).value
  }

  /** The code point an escape denotes: zero, surrogates and out-of-range values become
      U+FFFD. */
  function EscapedCodePoint(v: nat): char {
    if v == 0 || (0xD800 <= v < 0xE000) || v >= 0x110000 then '\U{FFFD}' else v as char
  }

  /** Resolves every backslash escape of an escaped name, as CSS does inside an identifier. */
  function CssUnescape(s: string): string
    decreases |s|
  {
    if |s| == 0 then ""
    else if s[0] != '\\' || |s| == 1 then [s[0]] + CssUnescape(s[1..])
    else
      var n := HexRunLength(s[1..], 6);
      if n == 0 then [s[1]] + CssUnescape(s[2..])
      else
        var digits := s[1..][..n];
        var v := HexNumber(digits);
        var next := if 1 + n < |s| && IsCssWhitespace(s[1 + n]) then 2 + n else 1 + n;
        [EscapedCodePoint(v)] + CssUnescape(s[next..])
  }

  function UpperHexDigit(d: nat): (c: char)
    requires d < 16
    ensures HexValue(c) == Some(d)
  {
    AsciiUpperChar(HexDigit(d))
  }

  lemma UpperSnoc(a: string, x: char)
    ensures AsciiUpper(a + [x]) == AsciiUpper(a) + [AsciiUpperChar(x)]
  {
  }

  /** The upper-case hexadecimal rendering, digit by digit. */
  lemma UpperHexStep(n: nat)
    ensures n < 16 ==> AsciiUpper(NatToHex(n)) == [UpperHexDigit(n)]
    ensures n >= 16 ==> AsciiUpper(NatToHex(n)) == AsciiUpper(NatToHex(n / 16)) + [UpperHexDigit(n % 16)]
  {
    if n >= 16 {
      UpperSnoc(NatToHex(n / 16), HexDigit(n % 16));
    }
  }

  predicate AllHex(s: string) {
    forall i :: 0 <= i < |s| ==> HexValue(s[i]).Some?
  }

  lemma {:induction false} UpperHexValue(n: nat)
    ensures AllHex(AsciiUpper(NatToHex(n)))
    ensures HexNumber(AsciiUpper(NatToHex(n))) == n
  {
    var u := AsciiUpper(NatToHex(n));
    UpperHexStep(n);
    if n >= 16 {
      UpperHexValue(n / 16);
      assert u[..|u| - 1] == AsciiUpper(NatToHex(n / 16));
    }
  }

  lemma {:induction false} HexLengthBound(n: nat, digits: nat)
    requires n < Power16(digits) && digits >= 1
    ensures |NatToHex(n)| <= digits
  {
    if n >= 16 {
      HexLengthBound(n / 16, digits - 1);
    }
  }

  lemma {:induction false} HexRunStopsAtSpace(h: string, rest: string, max: nat)
    requires |h| <= max
    requires AllHex(h)
    ensures HexRunLength(h + " " + rest, max) == |h|
  {
    if |h| > 0 {
      assert (h + " " + rest)[1..] == h[1..] + " " + rest;
      HexRunStopsAtSpace(h[1..], rest, max - 1);
    }
  }

  /** A code point, and so any code unit, takes at most six hexadecimal digits, the most a
      CSS escape reads. */
  lemma ValueHexLength(v: nat)
    requires v < 0x110000
    ensures |UpperHex(v)| <= 6
  {
    assert Power16(1) == 16;
    assert Power16(2) == 256;
    assert Power16(3) == 4096;
    assert Power16(4) == 65536;
    assert Power16(5) == 1048576;
    assert Power16(6) == 16777216;
    HexLengthBound(v, 6);
  }

  /** A backslash, one to six hexadecimal digits and a space decode to one code point. */
  lemma UnescapeHexRun(h: string, rest: string)
    requires 1 <= |h| <= 6 && AllHex(h)
    ensures CssUnescape("\\" + h + " " + rest) == [EscapedCodePoint(HexNumber(h))] + CssUnescape(rest)
  {
    var s := "\\" + h + " " + rest;
    var t := s[1..];
    assert t == h + " " + rest;
    HexRunStopsAtSpace(h, rest, 6);
    assert t[..|h|] == h;
    assert s[1 + |h|] == ' ';
    assert s[2 + |h|..] == rest;
  }

  /** `\HEX ` decodes to the code point the value denotes. */
  lemma HexEscapeDecodes(v: nat, rest: string)
    requires v < 0x110000
    ensures CssUnescape("\\" + UpperHex(v) + " " + rest) == [EscapedCodePoint(v)] + CssUnescape(rest)
  {
    UpperHexValue(v);
    ValueHexLength(v);
    UnescapeHexRun(UpperHex(v), rest);
  }

  /** Decoding the escape of one value gives the character CSS reads for it. */
  lemma EscapeValueDecodes(v: nat, rest: string)
    requires v < 0x110000
    ensures CssUnescape(EscapeValue(v) + rest) == [EscapedCodePoint(v)] + CssUnescape(rest)
  {
    var s := EscapeValue(v) + rest;
    if IsSafeValue(v) {
      assert s[1..] == rest;
    } else if v == 0x20 {
      assert s[2..] == rest;
    } else {
      HexEscapeDecodes(v, rest);
    }
  }

  /** The characters CSS reads for a sequence of escaped values. */
  function DecodedValues(vs: seq<nat>): (r: string)
    ensures |r| == |vs| && forall i :: 0 <= i < |vs| ==> r[i] == EscapedCodePoint(vs[i])
  {
    if |vs| == 0 then [] else [EscapedCodePoint(vs[0])] + DecodedValues(vs[1..])
  }

  lemma {:induction false} EscapeValuesDecode(vs: seq<nat>)
    requires forall i :: 0 <= i < |vs| ==> vs[i] < 0x110000
    ensures CssUnescape(EscapeValues(vs)) == DecodedValues(vs)
  {
    if |vs| > 0 {
      EscapeValueDecodes(vs[0], EscapeValues(vs[1..]));
      EscapeValuesDecode(vs[1..]);
    }
  }

  lemma LeadingDigitRoundTrip(d: char, tail: string)
    requires IsAsciiDigit(d)
    ensures CssUnescape("\\3" + [d] + " " + tail) == [d] + CssUnescape(tail)
  {
    var r := "\\3" + [d] + " " + tail;
    assert r[1..] == ['3', d] + " " + tail;
    HexRunStopsAtSpace(['3', d], tail, 6);
    assert r[1..][..2] == ['3', d];
    assert HexNumber(['3', d]) == 48 + (d as int - '0' as int) by {
      assert ['3', d][..1] == ['3'];
      assert ['3'][..0] == [];
    }
    assert IsCssWhitespace(r[3]);
    assert r[4..] == tail;
  }

  /** The leading-digit rewrite does not change what the text decodes to. */
  lemma LeadingDigitKeepsDecode(e: string)
    ensures CssUnescape(EscapeLeadingDigit(e)) == CssUnescape(e)
  {
    if |e| > 0 && IsAsciiDigit(e[0]) {
      LeadingDigitRoundTrip(e[0], e[1..]);
      assert e == [e[0]] + e[1..];
    }
  }

  /** What the escape decodes to: each code unit as the character CSS reads for it, which is
      U+FFFD for U+0000 and for each surrogate. */
  lemma CssEscapeDecodes(s: string)
    ensures CssUnescape(CssEscapeSpec(s)) == DecodedValues(CodeUnits(s))
  {
    LeadingDigitKeepsDecode(EscapeValues(CodeUnits(s)));
    CodeUnitsBound(s);
    EscapeValuesDecode(CodeUnits(s));
  }

  /** A character other than U+0000 is read back as itself. */
  lemma {:induction false} DecodedCodePoints(s: string)
    requires '\U{0000}' !in s
    ensures DecodedValues(CodePoints(s)) == s
  {
    var d := DecodedValues(CodePoints(s));
    forall i | 0 <= i < |s|
      ensures d[i] == s[i]
    {
      assert s[i] != '\U{0000}';
    }
  }

  /** The escape decodes back to every string without U+0000 (which CSS always reads as
      U+FFFD) whose characters lie below U+10000. */
  lemma CssEscapeRoundTrip(s: string)
    requires '\U{0000}' !in s && InBmp(s)
    ensures CssUnescape(CssEscapeSpec(s)) == s
  {
    CssEscapeDecodes(s);
    BmpCodeUnits(s);
    DecodedCodePoints(s);
  }

  /** A character above U+FFFF is escaped as its two surrogates, which CSS reads as two
      U+FFFD: the selector no longer names the input. */
  lemma AstralEscapeLost(c: char)
    requires c as int >= 0x10000
    ensures CssUnescape(CssEscapeSpec([c])) == "\U{FFFD}\U{FFFD}"
  {
    CssEscapeDecodes([c]);
    assert CodeUnits([c]) == Utf16(c) by {
      assert [c][1..] == [];
    }
  }

  /** Escaping code points instead decodes back to every string without U+0000. */
  lemma CodePointEscapeRoundTrip(s: string)
    requires '\U{0000}' !in s
    ensures CssUnescape(CssEscapeCodePoints(s)) == s
  {
    LeadingDigitKeepsDecode(EscapeValues(CodePoints(s)));
    EscapeValuesDecode(CodePoints(s));
    DecodedCodePoints(s);
  }

  // ---------------------------------------------------------------------------------------
  // getElementKey

  /** `el.tagName || el.name || "*"` */
  function TagOrStar(n: Node): string {
    if n.name != "" then n.name else "*"
  }

  /** The key a section is named after: its id, else its first class, else its tag name.
      Never empty, so the tagging pass never skips a candidate for want of a key. */
  function ElementKey(n: Node): (r: string)
    ensures r != ""
  {
    var tokens := ClassTokens(n);
    if IdOf(n) != "" then IdOf(n) else if tokens != [] then tokens[0] else TagOrStar(n)
  }

  /** An id wins; without one the key is the first class word, a single run without white
      space; without either it is the tag name, or `*` for a nameless node. */
  lemma ElementKeyChoice(n: Node)
    ensures IdOf(n) != "" ==> ElementKey(n) == IdOf(n)
    ensures IdOf(n) == "" && ClassTokens(n) != [] ==>
      ElementKey(n) == ClassTokens(n)[0] && NoSpace(ElementKey(n))
    ensures IdOf(n) == "" && ClassTokens(n) == [] ==>
      ElementKey(n) == (if n.name != "" then n.name else "*")
  {
    WordsNoSpace(Attr(n, "class"));
  }

  // ---------------------------------------------------------------------------------------
  // computePathFromAncestor

  /** What one step of the climb pushes: the escaped id, which ends the climb, or the tag
      name with its position among same-named siblings. */
  datatype Step = ById(id: string) | ByType(tag: string, index: nat)

  function RenderStep(step: Step): string {
    match step
    case ById(id) => "#" + CssEscapeSpec(id)
    case ByType(tag, k) => TypeFragment(tag, k)
  }

  function Rendered(steps: seq<Step>): (r: seq<string>)
    ensures |r| == |steps|
  {
    Map(RenderStep, steps)
  }

  /** The steps of the climb from `cur` towards `ancestor`, nearest first, with `fuel`
      steps left: a node with an id ends the climb, a nameless node ends it with nothing,
      any other node is addressed by type and the climb moves to its parent. */
  function ClimbSteps(t: Tree, ancestor: NodeId, cur: Option<NodeId>, fuel: nat): seq<Step>
    requires WellFormed(t)
    requires cur.Some? ==> cur.value < |t|
    decreases fuel
  {
    if cur.None? || cur.value == ancestor || fuel == 0 then []
    else
      var n := t[cur.value];
      if n.name == "" then []
      else if IdOf(n) != "" then [ById(IdOf(n))]
      else [ByType(n.name, NthOfType(t, cur.value))] + ClimbSteps(t, ancestor, n.parent, fuel - 1)
  }

  /** The rendered steps, outermost first, joined by " > ". */
  function PathWithin(t: Tree, ancestor: NodeId, cur: Option<NodeId>, fuel: nat): string
    requires WellFormed(t)
    requires cur.Some? ==> cur.value < |t|
  {
    Join(Reverse(Rendered(ClimbSteps(t, ancestor, cur, fuel))), " > ")
  }

  /** The path `computePathFromAncestor` builds from `ancestor` (exclusive) down to
      `target`. */
  function RelativePath(t: Tree, ancestor: NodeId, target: NodeId): string
    requires WellFormed(t) && target < |t|
  {
    PathWithin(t, ancestor, Some(target), ClimbGuard)
  }

  /** The path of the ancestor itself is empty, any other named target has a non-empty
      path, and a target with an id is addressed by its escaped id alone. */
  lemma RelativePathBasics(t: Tree, ancestor: NodeId, target: NodeId)
    requires WellFormed(t) && target < |t|
    ensures target == ancestor ==> RelativePath(t, ancestor, target) == ""
    ensures target != ancestor && t[target].name != "" ==> RelativePath(t, ancestor, target) != ""
    ensures target != ancestor && t[target].name != "" && IdOf(t[target]) != "" ==>
      RelativePath(t, ancestor, target) == "#" + CssEscapeSpec(IdOf(t[target]))
  {
    var steps := ClimbSteps(t, ancestor, Some(target), ClimbGuard);
    var parts := Rendered(steps);
    JoinReversedEndsWithFirst(parts);
    if |parts| > 0 {
      RenderedHead(steps);
    }
  }

  /** The joined reversal ends with the first fragment. */
  lemma JoinReversedEndsWithFirst(parts: seq<string>)
    ensures |parts| > 0 ==> var joined := Join(Reverse(parts), " > ");
      |parts[0]| <= |joined| && joined[|joined| - |parts[0]|..] == parts[0]
  {
    if |parts| > 0 {
      var init := Reverse(parts[1..]);
      var pre := if |init| == 0 then "" else Join(init, " > ") + " > ";
      assert Join(Reverse(parts), " > ") == pre + parts[0] by {
        assert Reverse(parts) == init + [parts[0]];
        JoinSnoc(init, parts[0], " > ");
      }
    }
  }

  lemma ReverseCons<T>(x: T, xs: seq<T>)
    ensures Reverse([x] + xs) == Reverse(xs) + [x]
  {
    assert ([x] + xs)[1..] == xs;
  }

  /** A node without an id is addressed by its parent's path, then " > ", then its own
      `tag:nth-of-type(k)` fragment. */
  lemma PathWithinStep(t: Tree, ancestor: NodeId, cur: NodeId, fuel: nat)
    requires WellFormed(t) && cur < |t|
    requires fuel > 0 && cur != ancestor && t[cur].name != "" && IdOf(t[cur]) == ""
    ensures var up := PathWithin(t, ancestor, t[cur].parent, fuel - 1);
            var own := TypeFragment(t[cur].name, NthOfType(t, cur));
            PathWithin(t, ancestor, Some(cur), fuel) == if up == "" then own else up + " > " + own
  {
    var restSteps := ClimbSteps(t, ancestor, t[cur].parent, fuel - 1);
    var rest := Rendered(restSteps);
    var own := TypeFragment(t[cur].name, NthOfType(t, cur));
    var step := ByType(t[cur].name, NthOfType(t, cur));
    assert ClimbSteps(t, ancestor, Some(cur), fuel) == [step] + restSteps;
    RenderedCons(step, restSteps);
    ReverseCons(own, rest);
    JoinSnoc(Reverse(rest), own, " > ");
    if |rest| > 0 {
      var rev := Reverse(rest);
      assert rev == rev[..|rev| - 1] + [rest[0]];
      JoinSnoc(rev[..|rev| - 1], rest[0], " > ");
    }
  }

  /** Two same-named element siblings never get the same fragment. */
  lemma SiblingFragmentsDiffer(t: Tree, p: NodeId, i: nat, j: nat)
    requires WellFormed(t) && p < |t|
    requires i < j < |t[p].children|
    requires forall a, b :: 0 <= a < b < |t[p].children| ==> t[p].children[a] != t[p].children[b]
    requires t[t[p].children[i]].parent == Some(p) && t[t[p].children[j]].parent == Some(p)
    requires t[t[p].children[i]].nodeType == Tag
    requires t[t[p].children[i]].name == t[t[p].children[j]].name
    ensures TypeFragment(t[t[p].children[i]].name, NthOfType(t, t[p].children[i]))
         != TypeFragment(t[t[p].children[j]].name, NthOfType(t, t[p].children[j]))
  {
    var tag := t[t[p].children[i]].name;
    var ki, kj := NthOfType(t, t[p].children[i]), NthOfType(t, t[p].children[j]);
    NthOfTypeStrictlyIncreasing(t, p, i, j);
    var pre := tag + ":nth-of-type(";
    var a, b := TypeFragment(tag, ki), TypeFragment(tag, kj);
    if a == b {
      assert a[|pre|..|a| - 1] == NatToDecimal(ki);
      assert b[|pre|..|b| - 1] == NatToDecimal(kj);
      NatToDecimalInjective(ki, kj);
      assert false;
    }
  }

  lemma RenderedSnoc(done: seq<Step>, step: Step)
    ensures Rendered(done + [step]) == Rendered(done) + [RenderStep(step)]
  {
    MapAppend(RenderStep, done, [step]);
  }

  lemma RenderedCons(step: Step, rest: seq<Step>)
    ensures Rendered([step] + rest) == [RenderStep(step)] + Rendered(rest)
  {
    MapAppend(RenderStep, [step], rest);
  }

  lemma RenderedHead(steps: seq<Step>)
    requires |steps| > 0
    ensures Rendered(steps)[0] == RenderStep(steps[0])
  {
  }

  /** One step of the climb, read off the node it starts from. */
  lemma ClimbStepsUnfold(t: Tree, ancestor: NodeId, cur: NodeId, fuel: nat)
    requires WellFormed(t) && cur < |t| && cur != ancestor && fuel > 0
    ensures t[cur].name == "" ==> ClimbSteps(t, ancestor, Some(cur), fuel) == []
    ensures t[cur].name != "" && IdOf(t[cur]) != "" ==>
      ClimbSteps(t, ancestor, Some(cur), fuel) == [ById(IdOf(t[cur]))]
    ensures t[cur].name != "" && IdOf(t[cur]) == "" ==>
      ClimbSteps(t, ancestor, Some(cur), fuel)
      == [ByType(t[cur].name, NthOfType(t, cur))] + ClimbSteps(t, ancestor, t[cur].parent, fuel - 1)
  {
  }

  /** Extending the climb by one step extends the rendered parts by that step's rendering. */
  lemma ClimbExtend(done: seq<Step>, step: Step, rest: seq<Step>, whole: seq<Step>, parts: seq<string>, part: string)
    requires parts == Rendered(done) && part == RenderStep(step)
    requires done + ([step] + rest) == whole
    ensures parts + [part] == Rendered(done + [step])
    ensures (done + [step]) + rest == whole
  {
    RenderedSnoc(done, step);
  }

  /** The climb of `computePathFromAncestor`, at most `ClimbGuard` steps. */
  method ComputePathFromAncestor(t: Tree, ancestor: NodeId, target: NodeId) returns (path: string)
    requires WellFormed(t) && target < |t|
    ensures path == RelativePath(t, ancestor, target)
  {
    var parts: seq<string> := [];
    ghost var done: seq<Step> := [];
    ghost var whole := ClimbSteps(t, ancestor, Some(target), ClimbGuard);
    var cur: Option<NodeId> := Some(target);
    var steps := 0;
    while cur.Some? && cur.value != ancestor && steps < ClimbGuard
      invariant 0 <= steps <= ClimbGuard
      invariant cur.Some? ==> cur.value < |t|
      invariant parts == Rendered(done)
      invariant done + ClimbSteps(t, ancestor, cur, ClimbGuard - steps) == whole
      decreases ClimbGuard - steps
    {
      var n := t[cur.value];
      ClimbStepsUnfold(t, ancestor, cur.value, ClimbGuard - steps);
      steps := steps + 1;
      var tag := n.name;
      if tag == "" {
        assert done + [] == done;
        break;
      }
      var id := IdOf(n);
      if id != "" {
        var escaped := CssEscape(id);
        ClimbExtend(done, ById(id), [], whole, parts, "#" + escaped);
        done := done + [ById(id)];
        parts := parts + ["#" + escaped];
        break;
      }
      var indexOfType := IndexOfType(t, cur.value);
      var fragment := TypeFragment(tag, indexOfType);
      ClimbExtend(done, ByType(tag, indexOfType), ClimbSteps(t, ancestor, n.parent, ClimbGuard - steps), whole, parts, fragment);
      done := done + [ByType(tag, indexOfType)];
      parts := parts + [fragment];
      cur := n.parent;
    }
    if cur.None? || cur.value == ancestor || steps == ClimbGuard {
      assert done + [] == done;
    }
    parts := Reverse(parts);
    path := Join(parts, " > ");
  }

  // ---------------------------------------------------------------------------------------
  // pickSectionCandidates

  const LandmarkTags: seq<string> := ["header", "nav", "main", "footer", "section", "article", "aside"]

  const LayoutClasses: seq<string> :=
    ["hero", "mv", "container", "row", "col", "card", "box", "grid", "wrapper", "content",
     "section", "block", "Product", "Cando", "form_wrap", "mv_img", "mv_it"]

  /** The selector group `t1, t2, ...` */
  function TagGroup(tags: seq<string>): seq<Simple> {
    seq(|tags|, k requires 0 <= k < |tags| => Named(tags[k]))
  }

  /** The selector group `.c1, .c2, ...` */
  function ClassGroup(classes: seq<string>): seq<Simple> {
    seq(|classes|, k requires 0 <= k < |classes| => Classed(classes[k]))
  }

  /** Landmarks, then every element with an id, then the layout classes, then the children
      of `body`, each query in document order; duplicates not yet removed. */
  function CandidateList(t: Tree): (r: seq<NodeId>)
    requires WellFormed(t)
    ensures forall k :: 0 <= k < |r| ==> r[k] < |t|
  {
    Select(t, None, TagGroup(LandmarkTags))
    + Select(t, None, [HasAttr("id")])
    + Select(t, None, ClassGroup(LayoutClasses))
    + Select(t, None, [ChildOf("body")])
  }

  /** Keeps the first occurrence of every node: the same nodes, none twice. */
  function Dedupe(xs: seq<NodeId>): (r: seq<NodeId>)
    ensures forall x :: x in r <==> x in xs
    ensures forall a, b :: 0 <= a < b < |r| ==> r[a] != r[b]
  {
    if |xs| == 0 then []
    else
      var before := Dedupe(xs[..|xs| - 1]);
      assert forall x :: x in xs <==> x in xs[..|xs| - 1] || x == xs[|xs| - 1] by {
        assert xs == xs[..|xs| - 1] + [xs[|xs| - 1]];
      }
      if xs[|xs| - 1] in before then before else before + [xs[|xs| - 1]]
  }

  /** The position where `x` first occurs in `xs`. */
  function FirstIndex(xs: seq<NodeId>, x: NodeId): (i: nat)
    requires x in xs
    ensures i < |xs| && xs[i] == x && x !in xs[..i]
  {
    if xs[0] == x then 0
    else
      var i := 1 + FirstIndex(xs[1..], x);
      assert xs[..i] == [xs[0]] + xs[1..][..i - 1];
      i
  }

  lemma FirstIndexInPrefix(xs: seq<NodeId>, m: nat, x: NodeId)
    requires m <= |xs| && x in xs[..m]
    ensures x in xs && FirstIndex(xs, x) == FirstIndex(xs[..m], x)
  {
    var i, j := FirstIndex(xs, x), FirstIndex(xs[..m], x);
    assert xs[..m][..j] == xs[..j];
  }

  /** The kept nodes appear in the order of their first occurrence. */
  lemma {:induction false} DedupeKeepsFirstSeenOrder(xs: seq<NodeId>)
    ensures forall a, b :: 0 <= a < b < |Dedupe(xs)| ==>
      FirstIndex(xs, Dedupe(xs)[a]) < FirstIndex(xs, Dedupe(xs)[b])
  {
    if |xs| > 0 {
      var m := |xs| - 1;
      var init := xs[..m];
      DedupeKeepsFirstSeenOrder(init);
      var before := Dedupe(init);
      var r := Dedupe(xs);
      forall a, b | 0 <= a < b < |r| ensures FirstIndex(xs, r[a]) < FirstIndex(xs, r[b]) {
        FirstIndexInPrefix(xs, m, r[a]);
        if b < |before| {
          FirstIndexInPrefix(xs, m, r[b]);
        } else {
          assert r[b] == xs[m] && xs[m] !in init;
          assert FirstIndex(xs, r[b]) == m;
        }
      }
    }
  }

  /** The section candidates: every query's matches, first occurrences only. */
  function Candidates(t: Tree): (r: seq<NodeId>)
    requires WellFormed(t)
    ensures forall k :: 0 <= k < |r| ==> r[k] < |t|
  {
    var r := Dedupe(CandidateList(t));
    assert forall k :: 0 <= k < |r| ==> r[k] in CandidateList(t);
    r
  }

  /** `pickSectionCandidates` */
  method PickSectionCandidates(t: Tree) returns (out: seq<NodeId>)
    requires WellFormed(t)
    ensures out == Candidates(t)
  {
    var candidates := CandidateList(t);
    out := DedupeInOrder(candidates);
  }

  /** The dedupe loop, tracking the nodes seen so far. */
  method DedupeInOrder(candidates: seq<NodeId>) returns (out: seq<NodeId>)
    ensures out == Dedupe(candidates)
  {
    out := [];
    var seen: set<NodeId> := {};
    for i := 0 to |candidates|
      invariant out == Dedupe(candidates[..i])
      invariant forall x :: x in seen <==> x in out
    {
      var el := candidates[i];
      assert candidates[..i + 1][..i] == candidates[..i];
      if el !in seen {
        seen := seen + {el};
        out := out + [el];
      }
    }
    assert candidates[..|candidates|] == candidates;
  }

  /** Every candidate is an element, and every landmark, every element with an id, every
      element with a layout class and every child of `body` is a candidate. */
  lemma CandidatesCoverGroups(t: Tree, i: NodeId)
    requires WellFormed(t) && i < |t|
    ensures i in Dedupe(CandidateList(t)) ==> IsElement(t[i])
    ensures IsElement(t[i]) && (t[i].name in LandmarkTags || "id" in t[i].attrs ||
      (exists k :: 0 <= k < |LayoutClasses| && HasClass(t[i], LayoutClasses[k])) ||
      (t[i].parent.Some? && IsElement(t[t[i].parent.value]) && t[t[i].parent.value].name == "body"))
      ==> i in Dedupe(CandidateList(t))
  {
    var g1, g2 := TagGroup(LandmarkTags), ClassGroup(LayoutClasses);
    SelectSound(t, None, g1);
    SelectSound(t, None, g2);
    SelectSound(t, None, [HasAttr("id")]);
    SelectSound(t, None, [ChildOf("body")]);
    if i in Dedupe(CandidateList(t)) {
      var s1, s2, s3, s4 := Select(t, None, g1), Select(t, None, [HasAttr("id")]),
        Select(t, None, g2), Select(t, None, [ChildOf("body")]);
      assert i in s1 || i in s2 || i in s3 || i in s4;
    }
    if IsElement(t[i]) {
      if t[i].name in LandmarkTags {
        var k :| 0 <= k < |LandmarkTags| && LandmarkTags[k] == t[i].name;
        assert Matches(t, i, g1[k]);
        assert i in Select(t, None, g1);
        assert i in CandidateList(t);
      }
      if exists k :: 0 <= k < |LayoutClasses| && HasClass(t[i], LayoutClasses[k]) {
        var k :| 0 <= k < |LayoutClasses| && HasClass(t[i], LayoutClasses[k]);
        assert Matches(t, i, g2[k]);
        assert i in Select(t, None, g2);
        assert i in CandidateList(t);
      }
      if "id" in t[i].attrs {
        assert Matches(t, i, [HasAttr("id")][0]);
        assert i in Select(t, None, [HasAttr("id")]);
        assert i in CandidateList(t);
      }
      if t[i].parent.Some? && IsElement(t[t[i].parent.value]) && t[t[i].parent.value].name == "body" {
        assert Matches(t, i, [ChildOf("body")][0]);
        assert i in Select(t, None, [ChildOf("body")]);
        assert i in CandidateList(t);
      }
    }
  }

  // ---------------------------------------------------------------------------------------
  // collectTargetsWithin

  /** The target catalog of one section: the relative path of its first h1-h3 (absent when
      there is none), then one list of relative paths per kind of target, in the order of
      `TargetKinds`. */
  datatype Catalog = Catalog(title: Option<string>, lists: seq<seq<string>>)

  /** The keys of the catalog after `title`. */
  const TargetKinds: seq<string> :=
    ["headings", "paragraphs", "lists", "listItems", "images", "pictureImages", "videos",
     "links", "buttons", "forms", "inputs"]

  /** The selector each kind of target is collected with. */
  const TargetGroups: seq<seq<Simple>> :=
    [TagGroup(["h1", "h2", "h3", "h4", "h5", "h6"]),
     [Named("p")],
     TagGroup(["ul", "ol"]),
     [Named("li")],
     [Named("img")],
     [DescendantOf("picture", "img")],
     TagGroup(["video", "source"]),
     [Named("a")],
     [Named("button"), Classed("btn"), AttrIs("role", "button")],
     [Named("form")],
     TagGroup(["input", "textarea", "select"])]

  const TitleGroup: seq<Simple> := TagGroup(["h1", "h2", "h3"])

  /** The nodes under `root` that match `group`. */
  predicate Target(t: Tree, root: NodeId, group: seq<Simple>, i: NodeId)
    requires WellFormed(t) && i < |t|
  {
    InScope(t, Some(root), i) && MatchesAny(t, i, group)
  }

  /** `firstPath`: the path of the first match in document order, unfiltered. */
  function FirstPath(t: Tree, root: NodeId, group: seq<Simple>): Option<string>
    requires WellFormed(t) && root < |t|
  {
    var found := Select(t, Some(root), group);
    if found == [] then None else Some(RelativePaths(t, root, found)[0])
  }

  /** The title is the path of the earliest match, and is absent only when nothing matches. */
  lemma FirstPathIsFirstMatch(t: Tree, root: NodeId, group: seq<Simple>)
    requires WellFormed(t) && root < |t|
    ensures FirstPath(t, root, group).None? <==> forall i :: 0 <= i < |t| ==> !Target(t, root, group, i)
    ensures FirstPath(t, root, group).Some? ==>
      exists d :: 0 <= d < |t| && Target(t, root, group, d) &&
        FirstPath(t, root, group).value == RelativePath(t, root, d) &&
        (forall i :: 0 <= i < d ==> !Target(t, root, group, i))
  {
    var found := Select(t, Some(root), group);
    SelectSound(t, Some(root), group);
    if found != [] {
      assert Target(t, root, group, found[0]);
      forall i | 0 <= i < found[0] ensures !Target(t, root, group, i) {
      }
    }
  }

  /** The non-empty strings of `ps`, in order (the `if (rel) list.push(rel)` filter). */
  function NonEmpty(ps: seq<string>): (r: seq<string>)
    ensures |r| <= |ps|
  {
    if ps == [] then []
    else NonEmpty(ps[..|ps| - 1]) + (if ps[|ps| - 1] != "" then [ps[|ps| - 1]] else [])
  }

  /** The filter keeps exactly the non-empty strings: nothing empty survives, nothing
      non-empty is dropped, and nothing new appears. */
  lemma {:induction false} NonEmptySound(ps: seq<string>)
    ensures forall s :: s in NonEmpty(ps) <==> s in ps && s != ""
  {
    if ps != [] {
      NonEmptySound(ps[..|ps| - 1]);
      assert ps == ps[..|ps| - 1] + [ps[|ps| - 1]];
    }
  }

  /** The relative path of each node of `ds`, empty ones included. */
  function RelativePaths(t: Tree, root: NodeId, ds: seq<NodeId>): (r: seq<string>)
    requires WellFormed(t) && forall k :: 0 <= k < |ds| ==> ds[k] < |t|
    ensures |r| == |ds|
  {
    seq(|ds|, k requires 0 <= k < |ds| => RelativePath(t, root, ds[k]))
  }

  /** The non-empty relative paths of `ds`, in order. */
  function Paths(t: Tree, root: NodeId, ds: seq<NodeId>): (r: seq<string>)
    requires WellFormed(t) && forall k :: 0 <= k < |ds| ==> ds[k] < |t|
    ensures |r| <= |ds|
  {
    NonEmpty(RelativePaths(t, root, ds))
  }

  /** The kept paths are exactly the non-empty relative paths of the nodes of `ds`. */
  lemma PathsSound(t: Tree, root: NodeId, ds: seq<NodeId>)
    requires WellFormed(t) && forall k :: 0 <= k < |ds| ==> ds[k] < |t|
    ensures forall s :: s in Paths(t, root, ds) ==> s != "" && exists j :: 0 <= j < |ds| && s == RelativePath(t, root, ds[j])
    ensures forall j :: 0 <= j < |ds| && RelativePath(t, root, ds[j]) != "" ==>
      RelativePath(t, root, ds[j]) in Paths(t, root, ds)
  {
    var all := RelativePaths(t, root, ds);
    NonEmptySound(all);
    forall s | s in Paths(t, root, ds) ensures exists j :: 0 <= j < |ds| && s == RelativePath(t, root, ds[j]) {
      var j :| 0 <= j < |all| && all[j] == s;
    }
    forall j | 0 <= j < |ds| && RelativePath(t, root, ds[j]) != "" ensures RelativePath(t, root, ds[j]) in Paths(t, root, ds) {
      assert all[j] == RelativePath(t, root, ds[j]);
    }
  }

  /** `firstPath(selector)`: the path of the first match, undefined when there is none. */
  method FirstPathOf(t: Tree, root: NodeId, group: seq<Simple>) returns (title: Option<string>)
    requires WellFormed(t) && root < |t|
    ensures title == FirstPath(t, root, group)
  {
    var first := Select(t, Some(root), group);
    if first == [] {
      return None;
    }
    var path := ComputePathFromAncestor(t, root, first[0]);
    return Some(path);
  }

  /** `buildPaths(selector)` */
  function BuildPaths(t: Tree, root: NodeId, group: seq<Simple>): seq<string>
    requires WellFormed(t) && root < |t|
  {
    Paths(t, root, Select(t, Some(root), group))
  }

  /** `buildPaths(selector)`: the matches, then one relative path each. */
  method BuildPathsLoop(t: Tree, root: NodeId, group: seq<Simple>) returns (list: seq<string>)
    requires WellFormed(t) && root < |t|
    ensures list == BuildPaths(t, root, group)
  {
    var found := Select(t, Some(root), group);
    list := EachPath(t, root, found);
  }

  /** The `.each` loop of `buildPaths`: pushes every non-empty relative path. */
  method EachPath(t: Tree, root: NodeId, found: seq<NodeId>) returns (list: seq<string>)
    requires WellFormed(t) && forall k :: 0 <= k < |found| ==> found[k] < |t|
    ensures list == Paths(t, root, found)
  {
    ghost var all := RelativePaths(t, root, found);
    list := [];
    for i := 0 to |found|
      invariant list == NonEmpty(all[..i])
    {
      var rel := ComputePathFromAncestor(t, root, found[i]);
      NonEmptySnoc(all, i, rel);
      if rel != "" {
        list := list + [rel];
      }
    }
    assert all[..|found|] == all;
  }

  lemma NonEmptySnoc(all: seq<string>, i: nat, rel: string)
    requires i < |all| && all[i] == rel
    ensures NonEmpty(all[..i + 1]) == NonEmpty(all[..i]) + (if rel != "" then [rel] else [])
  {
    assert all[..i + 1][..i] == all[..i];
  }

  /** The catalog `collectTargetsWithin` builds for the section rooted at `root`. */
  function Collect(t: Tree, root: NodeId): Catalog
    requires WellFormed(t) && root < |t|
  {
    Catalog(FirstPath(t, root, TitleGroup), BuildAll(t, root, TargetGroups))
  }

  /** `buildPaths` of each group, in order. */
  function BuildAll(t: Tree, root: NodeId, groups: seq<seq<Simple>>): (r: seq<seq<string>>)
    requires WellFormed(t) && root < |t|
    ensures |r| == |groups|
  {
    seq(|groups|, k requires 0 <= k < |groups| => BuildPaths(t, root, groups[k]))
  }

  /** `collectTargetsWithin($, rootEl)` */
  method CollectTargetsWithin(t: Tree, root: NodeId) returns (c: Catalog)
    requires WellFormed(t) && root < |t|
    ensures c == Collect(t, root)
  {
    var title := FirstPathOf(t, root, TitleGroup);
    // the eleven `buildPaths` calls of the object literal, in key order
    var lists := BuildEach(t, root, TargetGroups);
    c := Catalog(title, lists);
  }

  /** The `buildPaths` calls, one group after the other. */
  method BuildEach(t: Tree, root: NodeId, groups: seq<seq<Simple>>) returns (lists: seq<seq<string>>)
    requires WellFormed(t) && root < |t|
    ensures lists == BuildAll(t, root, groups)
  {
    lists := [];
    for k := 0 to |groups|
      invariant |lists| == k
      invariant forall j :: 0 <= j < k ==> lists[j] == BuildPaths(t, root, groups[j])
    {
      var list := BuildPathsLoop(t, root, groups[k]);
      lists := lists + [list];
    }
  }

  /** Every named `img` strictly inside a section is listed among its images. */
  lemma CatalogListsEveryImage(t: Tree, root: NodeId, d: NodeId)
    requires WellFormed(t) && root < |t| && d < |t| && d != root
    requires IsElement(t[d]) && t[d].name == "img" && IsAncestor(t, root, d)
    ensures TargetKinds[4] == "images"
    ensures RelativePath(t, root, d) in Collect(t, root).lists[4]
  {
    var group := TargetGroups[4];
    assert group == [Named("img")];
    assert Matches(t, d, group[0]);
    assert RelativePath(t, root, d) != "";
    BuildPathsListsMatch(t, root, group, d);
  }

  /** A match in scope with a non-empty path is among the group's paths. */
  lemma BuildPathsListsMatch(t: Tree, root: NodeId, group: seq<Simple>, d: NodeId)
    requires WellFormed(t) && root < |t| && d < |t|
    requires IsAncestor(t, root, d) && MatchesAny(t, d, group) && RelativePath(t, root, d) != ""
    ensures RelativePath(t, root, d) in BuildPaths(t, root, group)
  {
    var found := Select(t, Some(root), group);
    SelectSound(t, Some(root), group);
    assert d in found;
    var j :| 0 <= j < |found| && found[j] == d;
    PathsSound(t, root, found);
  }

  /** `JSON.stringify` of a list of strings. */
  function JsonStringArray(xs: seq<string>): string {
    "[" + Join(seq(|xs|, k requires 0 <= k < |xs| => JsValue.JsonQuote(xs[k])), ",") + "]"
  }

  /** `JSON.stringify(targets)`: the keys in insertion order, an absent title omitted. */
  function CatalogJson(c: Catalog): string {
    var n := if |c.lists| < |TargetKinds| then |c.lists| else |TargetKinds|;
    var members := seq(n, k requires 0 <= k < n =>
      JsValue.JsonQuote(TargetKinds[k]) + ":" + JsonStringArray(c.lists[k]));
    "{"
    + (match c.title case Some(s) => "\"title\":" + JsValue.JsonQuote(s) + "," case None => "")
    + Join(members, ",")
    + "}"
  }

  // ---------------------------------------------------------------------------------------
  // tagSections

  /** `${key}-${prev}` once the key has been used, the key itself the first time. */
  function SuffixedKey(base: string, prev: nat): string {
    if prev > 0 then base + "-" + NatToDecimal(prev) else base
  }

  function UsedCount(used: map<string, nat>, key: string): nat {
    if key in used then used[key] else 0
  }

  /** What a section key is computed from: a node's place and name, its id, its class. */
  datatype KeySource = KeySource(nodeType: NodeType, name: string, parent: Option<NodeId>,
                                 children: seq<NodeId>, id: string, cls: string)

  function Sources(n: Node): KeySource {
    KeySource(n.nodeType, n.name, n.parent, n.children, IdOf(n), Attr(n, "class"))
  }

  /** Trees whose nodes agree on everything a section key is computed from. */
  predicate SameKeySources(a: Tree, b: Tree) {
    |a| == |b| && forall x :: 0 <= x < |a| ==> Sources(a[x]) == Sources(b[x])
  }

  lemma SameKeySourcesShape(a: Tree, b: Tree)
    requires SameKeySources(a, b)
    ensures SameShape(a, b) && (WellFormed(a) ==> WellFormed(b))
  {
    forall x | 0 <= x < |a|
      ensures a[x].nodeType == b[x].nodeType && a[x].name == b[x].name
      ensures a[x].parent == b[x].parent && a[x].children == b[x].children
    {
      assert Sources(a[x]) == Sources(b[x]);
    }
    SameShapeWellFormed(a, b);
  }

  /** Nodes with the same key sources get the same key. */
  lemma SameKeySourcesAt(a: Tree, b: Tree, x: NodeId)
    requires SameKeySources(a, b) && x < |a|
    ensures IdOf(a[x]) == IdOf(b[x]) && ElementKey(a[x]) == ElementKey(b[x])
  {
    assert Sources(a[x]) == Sources(b[x]);
  }

  lemma SameKeySourcesTrans(a: Tree, b: Tree, c: Tree)
    requires SameKeySources(a, b) && SameKeySources(b, c)
    ensures SameKeySources(a, c)
  {
  }

  /** Setting an attribute other than `id` and `class` leaves every key source alone. */
  lemma SetAttrKeepsKeySources(t: Tree, el: NodeId, key: string, value: string)
    requires el < |t| && key != "id" && key != "class"
    ensures SameKeySources(t, SetAttr(t, el, key, value))
  {
    var r := SetAttr(t, el, key, value);
    assert Sources(r[el]) == Sources(t[el]) by {
      assert IdOf(r[el]) == IdOf(t[el]);
      assert Attr(r[el], "class") == Attr(t[el], "class");
    }
  }

  /** The key the loop gives `n` and the `usedCounts` it leaves: an id is used as is and
      not counted, any other key is suffixed with its previous use count. */
  function NextKey(used: map<string, nat>, n: Node): (r: (string, map<string, nat>))
    ensures IdOf(n) != "" ==> r == (IdOf(n), used)
    ensures IdOf(n) == "" ==> r.1 == used[ElementKey(n) := UsedCount(used, ElementKey(n)) + 1]
    ensures IdOf(n) == "" ==> r.0 == SuffixedKey(ElementKey(n), UsedCount(used, ElementKey(n)))
  {
    var base := ElementKey(n);
    var prev := UsedCount(used, base);
    if IdOf(n) != "" then (base, used) else (SuffixedKey(base, prev), used[base := prev + 1])
  }

  /** The key depends on the node only through its id and element key. */
  lemma NextKeySameSources(used: map<string, nat>, a: Node, b: Node)
    requires IdOf(a) == IdOf(b) && ElementKey(a) == ElementKey(b)
    ensures NextKey(used, a) == NextKey(used, b)
  {
  }

  /** `usedCounts` and the keys handed out so far. */
  datatype Keying = Keying(used: map<string, nat>, keys: seq<string>)

  /** The keys the loop hands out to the first `i` candidates, read off the original
      document (the loop never changes what a key is computed from; see `TagCandidates`). */
  function KeyUpTo(t: Tree, cands: seq<NodeId>, i: nat): (r: Keying)
    requires i <= |cands| && forall k :: 0 <= k < |cands| ==> cands[k] < |t|
    ensures |r.keys| == i
  {
    if i == 0 then Keying(map[], [])
    else
      var before := KeyUpTo(t, cands, i - 1);
      var next := NextKey(before.used, t[cands[i - 1]]);
      Keying(next.1, before.keys + [next.0])
  }

  /** The keys handed out to all the candidates. */
  function KeyAll(t: Tree, cands: seq<NodeId>): (r: Keying)
    requires forall k :: 0 <= k < |cands| ==> cands[k] < |t|
    ensures |r.keys| == |cands|
  {
    KeyUpTo(t, cands, |cands|)
  }

  /** The value `data-targets` receives on `el`: the JSON of its catalog. Total, so that it
      can be handed to `MarkSection` as a function value. */
  function TargetsJson(t: Tree, el: NodeId): string {
    if WellFormed(t) && el < |t| then CatalogJson(Collect(t, el)) else ""
  }

  /** `$(el).attr("data-section", key)`, then `data-targets` set to `targets` of the document
      as it is at that point: only `el` changes, its key sources stay, and it carries `key`.
      The rendering of `data-targets` is a parameter so that facts about the marking never
      depend on it; `TagSections` passes `TargetsJson`. */
  function MarkSection(t: Tree, el: NodeId, key: string, targets: (Tree, NodeId) -> string): (r: Tree)
    requires WellFormed(t) && el < |t|
    ensures |r| == |t| && SameKeySources(t, r) && WellFormed(r)
    ensures "data-section" in r[el].attrs && r[el].attrs["data-section"] == key
    ensures "data-targets" in r[el].attrs
    ensures forall k :: k != "data-section" && k != "data-targets" ==>
      (k in r[el].attrs <==> k in t[el].attrs) && (k in t[el].attrs ==> r[el].attrs[k] == t[el].attrs[k])
    ensures r == t[el := r[el]]
  {
    var t1 := SetAttr(t, el, "data-section", key);
    SetAttrKeepsKeySources(t, el, "data-section", key);
    SameKeySourcesShape(t, t1);
    var json := targets(t1, el);
    SetAttrKeepsKeySources(t1, el, "data-targets", json);
    var r := SetAttr(t1, el, "data-targets", json);
    SameKeySourcesTrans(t, t1, r);
    r
  }

  /** The node carries `key` in its `data-section` attribute. */
  predicate Keyed(n: Node, key: string) {
    "data-section" in n.attrs && n.attrs["data-section"] == key
  }

  /** The document once the first `i` candidates have been marked, `cands[k]` with
      `keys[k]`. */
  function MarkUpTo(t: Tree, cands: seq<NodeId>, keys: seq<string>, i: nat, targets: (Tree, NodeId) -> string): (r: Tree)
    requires WellFormed(t) && forall k :: 0 <= k < |cands| ==> cands[k] < |t|
    requires i <= |cands| && i <= |keys|
    ensures |r| == |t| && SameKeySources(t, r)
  {
    if i == 0 then t
    else
      var before := MarkUpTo(t, cands, keys, i - 1, targets);
      SameKeySourcesShape(t, before);
      var r := MarkSection(before, cands[i - 1], keys[i - 1], targets);
      SameKeySourcesTrans(t, before, r);
      r
  }

  /** The document once every candidate has been marked. */
  function MarkAll(t: Tree, cands: seq<NodeId>, keys: seq<string>, targets: (Tree, NodeId) -> string): (r: Tree)
    requires WellFormed(t) && forall k :: 0 <= k < |cands| ==> cands[k] < |t|
    requires |keys| == |cands|
    ensures SameKeySources(t, r) && WellFormed(r)
  {
    MarkUpTo(t, cands, keys, |cands|, targets)
  }

  /** `tagSections`: names every candidate section with `data-section` and records its
      target catalog in `data-targets`. */
  method TagSections(doc: Document)
    requires WellFormed(doc.nodes)
    modifies doc
    ensures var cands := Candidates(old(doc.nodes));
            doc.nodes == MarkAll(old(doc.nodes), cands, KeyAll(old(doc.nodes), cands).keys, TargetsJson)
  {
    var candidates := PickSectionCandidates(doc.nodes);
    TagCandidates(doc, candidates);
  }

  /** The loop of `tagSections` over the candidates, with its `usedCounts` map. */
  method TagCandidates(doc: Document, candidates: seq<NodeId>)
    requires WellFormed(doc.nodes) && forall k :: 0 <= k < |candidates| ==> candidates[k] < |doc.nodes|
    modifies doc
    ensures doc.nodes == MarkAll(old(doc.nodes), candidates, KeyAll(old(doc.nodes), candidates).keys, TargetsJson)
  {
    ghost var t0 := doc.nodes;
    ghost var all := KeyAll(t0, candidates).keys;
    var usedCounts: map<string, nat> := map[];
    ghost var keys: seq<string> := [];
    for i := 0 to |candidates|
      invariant KeyUpTo(t0, candidates, i) == Keying(usedCounts, keys)
      invariant doc.nodes == MarkUpTo(t0, candidates, all, i, TargetsJson)
    {
      ghost var before := Keying(usedCounts, keys);
      ghost var tb := doc.nodes;
      var el := candidates[i];
      SameKeySourcesAt(t0, doc.nodes, el);
      var sectionKey := ElementKey(doc.nodes[el]);
      var hasId := IdOf(doc.nodes[el]) != "";
      if !hasId {
        var prev := UsedCount(usedCounts, sectionKey);
        if prev > 0 {
          sectionKey := sectionKey + "-" + NatToDecimal(prev);
        }
        usedCounts := usedCounts[ElementKey(doc.nodes[el]) := prev + 1];
      }
      NextKeySameSources(before.used, tb[el], t0[el]);
      var t1 := SetAttr(doc.nodes, el, "data-section", sectionKey);
      var targets := CollectTargetsWithin(t1, el);
      doc.nodes := SetAttr(t1, el, "data-targets", CatalogJson(targets));
      KeyUpToStep(t0, candidates, i, before, sectionKey, usedCounts);
      KeyUpToPrefix(t0, candidates, i + 1, |candidates|);
      MarkUpToStep(t0, candidates, all, i, el, sectionKey, tb, doc.nodes, TargetsJson);
      keys := keys + [sectionKey];
    }
  }

  lemma KeyUpToStep(t: Tree, cands: seq<NodeId>, i: nat, before: Keying, key: string, used: map<string, nat>)
    requires forall k :: 0 <= k < |cands| ==> cands[k] < |t|
    requires i < |cands| && KeyUpTo(t, cands, i) == before
    requires (key, used) == NextKey(before.used, t[cands[i]])
    ensures KeyUpTo(t, cands, i + 1) == Keying(used, before.keys + [key])
  {
  }

  /** Later candidates never change the keys already handed out. */
  lemma {:induction false} KeyUpToPrefix(t: Tree, cands: seq<NodeId>, i: nat, j: nat)
    requires i <= j <= |cands| && forall k :: 0 <= k < |cands| ==> cands[k] < |t|
    ensures forall k :: 0 <= k < i ==> KeyUpTo(t, cands, j).keys[k] == KeyUpTo(t, cands, i).keys[k]
    decreases j
  {
    if i < j {
      KeyUpToPrefix(t, cands, i, j - 1);
    }
  }

  lemma MarkUpToStep(t: Tree, cands: seq<NodeId>, keys: seq<string>, i: nat, el: NodeId, key: string,
                     before: Tree, after: Tree, targets: (Tree, NodeId) -> string)
    requires WellFormed(t) && forall k :: 0 <= k < |cands| ==> cands[k] < |t|
    requires i < |cands| && i < |keys| && cands[i] == el && keys[i] == key
    requires before == MarkUpTo(t, cands, keys, i, targets)
    requires after == MarkSection(before, el, key, targets)
    ensures MarkUpTo(t, cands, keys, i + 1, targets) == after
  {
  }

  /** How many of the first `i` candidates have no id and the key `base`. */
  function CountBase(t: Tree, cands: seq<NodeId>, i: nat, base: string): nat
    requires i <= |cands| && forall k :: 0 <= k < |cands| ==> cands[k] < |t|
  {
    if i == 0 then 0
    else
      CountBase(t, cands, i - 1, base)
      + (if IdOf(t[cands[i - 1]]) == "" && ElementKey(t[cands[i - 1]]) == base then 1 else 0)
  }

  /** The key the i-th candidate should get: its id, or its base key suffixed with the
      number of earlier id-less candidates that share the base. */
  function ExpectedKey(t: Tree, cands: seq<NodeId>, i: nat): string
    requires i < |cands| && forall k :: 0 <= k < |cands| ==> cands[k] < |t|
  {
    var n := t[cands[i]];
    if IdOf(n) != "" then IdOf(n) else SuffixedKey(ElementKey(n), CountBase(t, cands, i, ElementKey(n)))
  }

  /** The keys the loop hands out are the expected ones, and `usedCounts` counts the
      id-less candidates per base key. */
  lemma {:induction false} SectionKeyRule(t: Tree, cands: seq<NodeId>, i: nat)
    requires i <= |cands| && forall k :: 0 <= k < |cands| ==> cands[k] < |t|
    ensures forall j :: 0 <= j < i ==> KeyUpTo(t, cands, i).keys[j] == ExpectedKey(t, cands, j)
    ensures forall b :: UsedCount(KeyUpTo(t, cands, i).used, b) == CountBase(t, cands, i, b)
  {
    KeyedSoFar(t, cands, i);
  }

  /** The first `i` keys are the expected ones. */
  ghost predicate KeysExpected(t: Tree, cands: seq<NodeId>, i: nat)
    requires i <= |cands| && forall k :: 0 <= k < |cands| ==> cands[k] < |t|
  {
    forall j :: 0 <= j < i ==> KeyUpTo(t, cands, i).keys[j] == ExpectedKey(t, cands, j)
  }

  /** `usedCounts` counts the id-less candidates among the first `i` per base key. */
  ghost predicate CountsKept(t: Tree, cands: seq<NodeId>, i: nat)
    requires i <= |cands| && forall k :: 0 <= k < |cands| ==> cands[k] < |t|
  {
    forall b :: UsedCount(KeyUpTo(t, cands, i).used, b) == CountBase(t, cands, i, b)
  }

  lemma {:induction false} KeyedSoFar(t: Tree, cands: seq<NodeId>, i: nat)
    requires i <= |cands| && forall k :: 0 <= k < |cands| ==> cands[k] < |t|
    ensures KeysExpected(t, cands, i) && CountsKept(t, cands, i)
  {
    if i > 0 {
      KeyedSoFar(t, cands, i - 1);
      LastKey(t, cands, i);
      KeysStep(t, cands, i);
      UsedStep(t, cands, i);
    }
  }

  /** The keys handed out before the `i`-th stay expected. */
  lemma KeysStep(t: Tree, cands: seq<NodeId>, i: nat)
    requires 0 < i <= |cands| && forall k :: 0 <= k < |cands| ==> cands[k] < |t|
    requires KeysExpected(t, cands, i - 1)
    requires KeyUpTo(t, cands, i).keys[i - 1] == ExpectedKey(t, cands, i - 1)
    ensures KeysExpected(t, cands, i)
  {
    var before, r := KeyUpTo(t, cands, i - 1), KeyUpTo(t, cands, i);
    assert r.keys[..i - 1] == before.keys;
    forall j | 0 <= j < i ensures r.keys[j] == ExpectedKey(t, cands, j) {
      if j < i - 1 {
        assert r.keys[j] == r.keys[..i - 1][j];
      }
    }
  }

  /** The `i`-th key is the expected one when the counts so far are right. */
  lemma LastKey(t: Tree, cands: seq<NodeId>, i: nat)
    requires 0 < i <= |cands| && forall k :: 0 <= k < |cands| ==> cands[k] < |t|
    requires CountsKept(t, cands, i - 1)
    ensures KeyUpTo(t, cands, i).keys[i - 1] == ExpectedKey(t, cands, i - 1)
  {
    var n := t[cands[i - 1]];
    assert UsedCount(KeyUpTo(t, cands, i - 1).used, ElementKey(n)) == CountBase(t, cands, i - 1, ElementKey(n));
  }

  /** Handing out the `i`-th key counts it under its base key when it has no id. */
  lemma UsedStep(t: Tree, cands: seq<NodeId>, i: nat)
    requires 0 < i <= |cands| && forall k :: 0 <= k < |cands| ==> cands[k] < |t|
    requires CountsKept(t, cands, i - 1)
    ensures CountsKept(t, cands, i)
  {
  }

  lemma {:induction false} CountBaseMonotone(t: Tree, cands: seq<NodeId>, i: nat, j: nat, base: string)
    requires forall k :: 0 <= k < |cands| ==> cands[k] < |t|
    requires i < j <= |cands|
    requires IdOf(t[cands[i]]) == "" && ElementKey(t[cands[i]]) == base
    ensures CountBase(t, cands, i, base) < CountBase(t, cands, j, base)
    decreases j
  {
    if j - 1 > i {
      CountBaseMonotone(t, cands, i, j - 1, base);
    }
  }

  /** Two id-less candidates with the same base key always get different keys. */
  lemma SameBaseKeysDiffer(t: Tree, cands: seq<NodeId>, i: nat, j: nat)
    requires forall k :: 0 <= k < |cands| ==> cands[k] < |t|
    requires i < j < |cands|
    requires IdOf(t[cands[i]]) == "" && IdOf(t[cands[j]]) == ""
    requires ElementKey(t[cands[i]]) == ElementKey(t[cands[j]])
    ensures KeyAll(t, cands).keys[i] != KeyAll(t, cands).keys[j]
  {
    SectionKeyRule(t, cands, |cands|);
    var base := ElementKey(t[cands[i]]);
    var ci, cj := CountBase(t, cands, i, base), CountBase(t, cands, j, base);
    CountBaseMonotone(t, cands, i, j, base);
    var ki, kj := SuffixedKey(base, ci), SuffixedKey(base, cj);
    if ki == kj && ci > 0 {
      assert ki[|base| + 1..] == NatToDecimal(ci);
      assert kj[|base| + 1..] == NatToDecimal(cj);
      NatToDecimalInjective(ci, cj);
    }
  }

  /** Once the first `i` candidates are marked each carries its own key in
      `data-section` (candidates are distinct). */
  lemma {:induction false} TaggedKeys(t: Tree, cands: seq<NodeId>, keys: seq<string>, i: nat,
                                      targets: (Tree, NodeId) -> string)
    requires WellFormed(t) && forall k :: 0 <= k < |cands| ==> cands[k] < |t|
    requires i <= |cands| && i <= |keys|
    requires forall a, b :: 0 <= a < b < |cands| ==> cands[a] != cands[b]
    ensures forall j :: 0 <= j < i ==> Keyed(MarkUpTo(t, cands, keys, i, targets)[cands[j]], keys[j])
  {
    forall j | 0 <= j < i
      ensures Keyed(MarkUpTo(t, cands, keys, i, targets)[cands[j]], keys[j])
    {
      KeyStays(t, cands, keys, j, i, targets);
    }
  }

  /** The key given to the `j`-th candidate survives the marking of every later one. */
  lemma {:induction false} KeyStays(t: Tree, cands: seq<NodeId>, keys: seq<string>, j: nat, i: nat,
                                    targets: (Tree, NodeId) -> string)
    requires WellFormed(t) && forall k :: 0 <= k < |cands| ==> cands[k] < |t|
    requires j < i <= |cands| && i <= |keys|
    requires forall k :: j < k < i ==> cands[k] != cands[j]
    ensures Keyed(MarkUpTo(t, cands, keys, i, targets)[cands[j]], keys[j])
    decreases i
  {
    if j + 1 == i {
      MarkedStep(t, cands, keys, j, targets);
    } else {
      KeyStays(t, cands, keys, j, i - 1, targets);
      OtherNodeStep(t, cands, keys, cands[j], i, targets);
    }
  }

  /** Marking the first `i` candidates leaves every other node as it was. */
  lemma {:induction false} UntaggedKept(t: Tree, cands: seq<NodeId>, keys: seq<string>, i: nat,
                                        targets: (Tree, NodeId) -> string)
    requires WellFormed(t) && forall k :: 0 <= k < |cands| ==> cands[k] < |t|
    requires i <= |cands| && i <= |keys|
    ensures forall x :: 0 <= x < |t| && (forall j :: 0 <= j < i ==> cands[j] != x) ==>
      MarkUpTo(t, cands, keys, i, targets)[x] == t[x]
  {
    forall x | 0 <= x < |t| && (forall j :: 0 <= j < i ==> cands[j] != x)
      ensures MarkUpTo(t, cands, keys, i, targets)[x] == t[x]
    {
      if i == 0 {
        MarkNone(t, cands, keys, targets);
      } else {
        NodeStays(t, cands, keys, x, i, targets);
      }
    }
  }

  /** A node that is none of the first `i` candidates is as it was. */
  lemma {:induction false} NodeStays(t: Tree, cands: seq<NodeId>, keys: seq<string>, x: nat, i: nat,
                                     targets: (Tree, NodeId) -> string)
    requires WellFormed(t) && forall k :: 0 <= k < |cands| ==> cands[k] < |t|
    requires 0 < i <= |cands| && i <= |keys| && x < |t|
    requires forall j :: 0 <= j < i ==> cands[j] != x
    ensures MarkUpTo(t, cands, keys, i, targets)[x] == t[x]
    decreases i
  {
    if i > 1 {
      NodeStays(t, cands, keys, x, i - 1, targets);
    } else {
      MarkNone(t, cands, keys, targets);
    }
    OtherNodeStep(t, cands, keys, x, i, targets);
  }

  lemma MarkNone(t: Tree, cands: seq<NodeId>, keys: seq<string>, targets: (Tree, NodeId) -> string)
    requires WellFormed(t) && forall k :: 0 <= k < |cands| ==> cands[k] < |t|
    ensures MarkUpTo(t, cands, keys, 0, targets) == t
  {
  }

  lemma OtherNodeStep(t: Tree, cands: seq<NodeId>, keys: seq<string>, x: nat, i: nat, targets: (Tree, NodeId) -> string)
    requires WellFormed(t) && forall k :: 0 <= k < |cands| ==> cands[k] < |t|
    requires 0 < i <= |cands| && i <= |keys| && x < |t| && cands[i - 1] != x
    ensures MarkUpTo(t, cands, keys, i, targets)[x] == MarkUpTo(t, cands, keys, i - 1, targets)[x]
  {
    MarkedStep(t, cands, keys, i - 1, targets);
  }

  /** Marking candidate `k` gives it its key and changes no other node. */
  lemma MarkedStep(t: Tree, cands: seq<NodeId>, keys: seq<string>, k: nat, targets: (Tree, NodeId) -> string)
    requires WellFormed(t) && forall k :: 0 <= k < |cands| ==> cands[k] < |t|
    requires k < |cands| && k < |keys|
    ensures var before, r := MarkUpTo(t, cands, keys, k, targets), MarkUpTo(t, cands, keys, k + 1, targets);
      && Keyed(r[cands[k]], keys[k])
      && r == before[cands[k] := r[cands[k]]]
  {
  }

  /** An id-less `div` whose class attribute is `c`. */
  function ClassDiv(c: string): (n: Node)
    ensures IsElement(n) && n.name == "div" && Attr(n, "class") == c
  {
    Node(Tag, "div", map["class" := c], None, [])
  }

  lemma ClassDivKey(c: string)
    requires c != [] && NoSpace(c)
    ensures IdOf(ClassDiv(c)) == "" && ElementKey(ClassDiv(c)) == c
  {
    WordsOfWord(c);
  }

  /** Two id-less candidates keyed `base` followed by one keyed `base-1`: the second
      and the third get the same key. */
  lemma SuffixMeetsKey(t: Tree, base: string)
    requires |t| == 3 && IdOf(t[0]) == "" && IdOf(t[1]) == "" && IdOf(t[2]) == ""
    requires ElementKey(t[0]) == base && ElementKey(t[1]) == base && ElementKey(t[2]) == base + "-1"
    ensures KeyAll(t, [0, 1, 2]).keys == [base, base + "-1", base + "-1"]
  {
    var c: seq<NodeId> := [0, 1, 2];
    var used1, used2 := map[base := 1], map[base := 2];
    KeyUpToStep(t, c, 0, Keying(map[], []), base, used1);
    assert [] + [base] == [base];
    assert used1[base := UsedCount(used1, base) + 1] == used2;
    assert SuffixedKey(base, 1) == base + "-1" by {
      assert NatToDecimal(1) == "1";
    }
    KeyUpToStep(t, c, 1, Keying(used1, [base]), base + "-1", used2);
    assert base + "-1" != base by {
      assert |base + "-1"| != |base|;
    }
    KeyUpToStep(t, c, 2, Keying(used2, [base] + [base + "-1"]), base + "-1", used2[base + "-1" := 1]);
  }

  /** Section keys are not unique per document: a class `card-1` meets the suffix the
      second `card` receives. */
  lemma KeysCanCollide()
    ensures var t := [ClassDiv("card"), ClassDiv("card"), ClassDiv("card-1")];
            KeyAll(t, [0, 1, 2]).keys[1] == "card-1" && KeyAll(t, [0, 1, 2]).keys[2] == "card-1"
  {
    assert NoSpace("card") && NoSpace("card-1");
    ClassDivKey("card");
    ClassDivKey("card-1");
    assert "card" + "-1" == "card-1";
    SuffixMeetsKey([ClassDiv("card"), ClassDiv("card"), ClassDiv("card-1")], "card");
  }

  /** A `div` whose id is `i`. */
  function IdDiv(i: string): (n: Node)
    ensures IsElement(n) && IdOf(n) == i
  {
    Node(Tag, "div", map["id" := i], None, [])
  }

  /** An id is never counted in `usedCounts`, so an id-less class word equal to it gets the
      same key: an element with id `card` and one with class `card` are both keyed `card`. */
  lemma IdMeetsClass()
    ensures var t := [IdDiv("card"), ClassDiv("card")];
            KeyAll(t, [0, 1]).keys == ["card", "card"]
  {
    var t := [IdDiv("card"), ClassDiv("card")];
    var c: seq<NodeId> := [0, 1];
    ClassDivKey("card");
    KeyUpToStep(t, c, 0, Keying(map[], []), "card", map[]);
    assert [] + ["card"] == ["card"];
    KeyUpToStep(t, c, 1, Keying(map[], ["card"]), "card", map["card" := 1]);
  }

  // ---------------------------------------------------------------------------------------
  // Keys unique per document

  /** The corrected key: the base key when no earlier section took it, else `base-n` for
      the smallest `n >= 1` not yet taken. Ids are suffixed like any other key. */
  function FreshKey(taken: set<string>, base: string): (r: string)
    ensures r !in taken
    ensures base !in taken ==> r == base
  {
    if base !in taken then base else FreshSuffix(taken, base, 1)
  }

  function FreshSuffix(taken: set<string>, base: string, n: nat): (r: string)
    requires n >= 1 && forall m :: 1 <= m < n ==> SuffixedKey(base, m) in taken
    ensures r !in taken
    decreases |taken| + 1 - n
  {
    SuffixesTaken(taken, base, n);
    if SuffixedKey(base, n) !in taken then SuffixedKey(base, n)
    else
      SuffixesTaken(taken, base, n + 1);
      FreshSuffix(taken, base, n + 1)
  }

  /** Different counts give different suffixed keys. */
  lemma SuffixedKeyInjective(base: string, m: nat, k: nat)
    requires m >= 1 && k >= 1 && SuffixedKey(base, m) == SuffixedKey(base, k)
    ensures m == k
  {
    var p := base + "-";
    assert (p + NatToDecimal(m))[|p|..] == NatToDecimal(m);
    assert (p + NatToDecimal(k))[|p|..] == NatToDecimal(k);
    NatToDecimalInjective(m, k);
  }

  /** The keys `base-1` to `base-(n-1)`. */
  function Suffixes(base: string, n: nat): (r: set<string>)
    ensures forall m :: 1 <= m < n ==> SuffixedKey(base, m) in r
  {
    if n <= 1 then {} else Suffixes(base, n - 1) + {SuffixedKey(base, n - 1)}
  }

  lemma {:induction false} SuffixesCount(base: string, n: nat)
    requires n >= 1
    ensures |Suffixes(base, n)| == n - 1
  {
    if n > 1 {
      SuffixesCount(base, n - 1);
      if SuffixedKey(base, n - 1) in Suffixes(base, n - 1) {
        SuffixesBelow(base, n - 1, SuffixedKey(base, n - 1));
        var m :| 1 <= m < n - 1 && SuffixedKey(base, m) == SuffixedKey(base, n - 1);
        SuffixedKeyInjective(base, m, n - 1);
      }
    }
  }

  lemma {:induction false} SuffixesBelow(base: string, n: nat, key: string)
    requires key in Suffixes(base, n)
    ensures exists m :: 1 <= m < n && SuffixedKey(base, m) == key
  {
    if key != SuffixedKey(base, n - 1) {
      SuffixesBelow(base, n - 1, key);
    }
  }

  /** While every suffix below `n` is taken, there are at least `n - 1` taken keys, so the
      search for a free suffix ends. */
  lemma SuffixesTaken(taken: set<string>, base: string, n: nat)
    requires n >= 1 && forall m :: 1 <= m < n ==> SuffixedKey(base, m) in taken
    ensures n - 1 <= |taken|
  {
    var s := Suffixes(base, n);
    forall key | key in s
      ensures key in taken
    {
      SuffixesBelow(base, n, key);
    }
    SuffixesCount(base, n);
    assert taken == s + (taken - s);
  }

  /** The corrected pass over the first `i` candidates: the keys taken so far and the keys
      handed out, first to last. */
  function UniqueKeysUpTo(t: Tree, cands: seq<NodeId>, i: nat): (r: (set<string>, seq<string>))
    requires i <= |cands| && forall k :: 0 <= k < |cands| ==> cands[k] < |t|
    ensures |r.1| == i
  {
    if i == 0 then ({}, [])
    else
      var before := UniqueKeysUpTo(t, cands, i - 1);
      var key := FreshKey(before.0, ElementKey(t[cands[i - 1]]));
      (before.0 + {key}, before.1 + [key])
  }

  /** No key is handed out twice. */
  predicate AllDistinct(keys: seq<string>) {
    forall a, b :: 0 <= a < b < |keys| ==> keys[a] != keys[b]
  }

  /** Every key handed out is recorded as taken. */
  predicate Recorded(taken: set<string>, keys: seq<string>) {
    forall k :: 0 <= k < |keys| ==> keys[k] in taken
  }

  /** The corrected pass hands out each key at most once. */
  lemma {:induction false} UniqueKeysDistinct(t: Tree, cands: seq<NodeId>, i: nat)
    requires i <= |cands| && forall k :: 0 <= k < |cands| ==> cands[k] < |t|
    ensures Recorded(UniqueKeysUpTo(t, cands, i).0, UniqueKeysUpTo(t, cands, i).1)
    ensures AllDistinct(UniqueKeysUpTo(t, cands, i).1)
  {
    if i > 0 {
      UniqueKeysDistinct(t, cands, i - 1);
      var before := UniqueKeysUpTo(t, cands, i - 1);
      var key := FreshKey(before.0, ElementKey(t[cands[i - 1]]));
      var keys := before.1 + [key];
      assert UniqueKeysUpTo(t, cands, i) == (before.0 + {key}, keys);
      forall k | 0 <= k < i
        ensures keys[k] in before.0 + {key}
      {
        if k < i - 1 {
          assert keys[k] == before.1[k];
        }
      }
      forall a, b | 0 <= a < b < i
        ensures keys[a] != keys[b]
      {
        assert keys[a] == before.1[a] && before.1[a] in before.0;
        if b < i - 1 {
          assert keys[b] == before.1[b];
        }
      }
    }
  }

  /** Later candidates never change the keys of earlier ones. */
  lemma {:induction false} UniqueKeysPrefix(t: Tree, cands: seq<NodeId>, k: nat, i: nat)
    requires k <= i <= |cands| && forall j :: 0 <= j < |cands| ==> cands[j] < |t|
    ensures UniqueKeysUpTo(t, cands, i).1[..k] == UniqueKeysUpTo(t, cands, k).1
  {
    if k < i {
      UniqueKeysPrefix(t, cands, k, i - 1);
      assert UniqueKeysUpTo(t, cands, i).1[..i - 1] == UniqueKeysUpTo(t, cands, i - 1).1;
    }
  }

  /** A candidate keeps its base key whenever no earlier candidate took it, so the corrected
      pass differs from the original only where the original repeats a key or suffixes. */
  lemma FreeBaseKept(t: Tree, cands: seq<NodeId>, k: nat, i: nat)
    requires k < i <= |cands| && forall j :: 0 <= j < |cands| ==> cands[j] < |t|
    requires ElementKey(t[cands[k]]) !in UniqueKeysUpTo(t, cands, k).0
    ensures UniqueKeysUpTo(t, cands, i).1[k] == ElementKey(t[cands[k]])
  {
    UniqueKeysPrefix(t, cands, k + 1, i);
    assert UniqueKeysUpTo(t, cands, i).1[k] == UniqueKeysUpTo(t, cands, i).1[..k + 1][k];
  }
}
