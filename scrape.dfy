/**
  The placeholder step of the scraper: every `img` of the captured page gets an SVG data URI
  in a colour of the site's palette, a rotating lorem-ipsum label, no `srcset`/`sizes`, and
  `alt="placeholder"`. Around it, the colour codec the palette is built with (`hexToRgb`,
  `rgbToHex`) and the markup escape applied to the label.
*/
module Scrape {
  import opened Wrappers
  import opened Text
  import opened Dom

  // ---------------------------------------------------------------------------------------
  // hexToRgb / rgbToHex (src/scrape.js:95-105)
  // ---------------------------------------------------------------------------------------

  datatype Rgb = Rgb(r: int, g: int, b: int)

  predicate InByteRange(c: Rgb) {
    0 <= c.r < 256 && 0 <= c.g < 256 && 0 <= c.b < 256
  }

  predicate IsHexDigit(c: char) {
    HexValue(c).Some?
  }

  /** The value of a string of hexadecimal digits, most significant first. */
  function HexNumber(d: string): (n: nat)
    requires forall i :: 0 <= i < |d| ==> IsHexDigit(d[i])
  {
    if |d| == 0 then 0
    else
      assert IsHexDigit(d[|d| - 1]);
      HexNumber(d[..|d| - 1]) * 16 + HexValue(d[|d| - 1]).value
  }

  /** The longest prefix of `s` made of hexadecimal digits. */
  function HexPrefix(s: string): (r: string)
    ensures |r| <= |s| && r == s[..|r|]
    ensures forall i :: 0 <= i < |r| ==> IsHexDigit(r[i])
    ensures |r| < |s| ==> !IsHexDigit(s[|r|])
  {
    if |s| > 0 && IsHexDigit(s[0]) then [s[0]] + HexPrefix(s[1..]) else []
  }

  /** `parseInt(s, 16)`: leading white space and one sign are skipped, then a `0x`/`0X`
      prefix, then as many hexadecimal digits as there are; `None` stands for `NaN`, the
      result when there is none. */
  function ParseHexInt(s: string): (r: Option<int>)
    ensures r.Some? && r.value < 0 ==> -r.value < Power16(|s|)
    ensures r.Some? && r.value >= 0 ==> r.value < Power16(|s|)
  {
    var s1 := TrimStart(s);
    var negative := |s1| > 0 && s1[0] == '-';
    var s2 := if |s1| > 0 && (s1[0] == '-' || s1[0] == '+') then s1[1..] else s1;
    var s3 := if |s2| >= 2 && s2[0] == '0' && (s2[1] == 'x' || s2[1] == 'X') then s2[2..] else s2;
    var digits := HexPrefix(s3);
    if digits == [] then None
    else
      HexNumberBound(digits);
      Power16Monotone(|digits|, |s|);
      Some(if negative then 0 - HexNumber(digits) else HexNumber(digits))
  }

  lemma {:induction false} Power16Monotone(j: nat, k: nat)
    requires j <= k
    ensures Power16(j) <= Power16(k)
  {
    if j < k {
      Power16Monotone(j, k - 1);
    }
  }

  lemma {:induction false} HexNumberBound(d: string)
    requires forall i :: 0 <= i < |d| ==> IsHexDigit(d[i])
    ensures HexNumber(d) < Power16(|d|)
  {
    if |d| > 0 {
      HexNumberBound(d[..|d| - 1]);
    }
  }

  /** `s.split("").map(c => c + c).join("")` */
  function Doubled(s: string): (r: string)
    ensures |r| == 2 * |s|
    ensures forall i :: 0 <= i < |s| ==> r[2 * i] == s[i] && r[2 * i + 1] == s[i]
  {
    if |s| == 0 then [] else [s[0], s[0]] + Doubled(s[1..])
  }

  /** The digits `hexToRgb` reads: one leading `#` dropped, white space trimmed, and a
      three-character form expanded by doubling each character. */
  function ExpandedDigits(hex: string): string {
    var h := Trim(if |hex| > 0 && hex[0] == '#' then hex[1..] else hex);
    if |h| == 3 then Doubled(h) else h
  }

  /** `{ r: (num >> 16) & 255, g: (num >> 8) & 255, b: num & 255 }`: `NaN` shifts as 0, and
      a number below 2^24 in magnitude is its own 32-bit value, whose shifts and masks are
      floor division and remainder. */
  function Components(num: Option<int>): (c: Rgb)
    ensures InByteRange(c)
  {
    match num
    case None => Rgb(0, 0, 0)
    case Some(n) => Rgb((n / 65536) % 256, (n / 256) % 256, n % 256)
  }

  /** `hexToRgb(hex)`: `None` for `null`. */
  function HexToRgb(hex: string): (r: Option<Rgb>)
    ensures r.None? <==> |ExpandedDigits(hex)| < 6
    ensures r.Some? ==> InByteRange(r.value)
  {
    var h := ExpandedDigits(hex);
    if |h| < 6 then None else Some(Components(ParseHexInt(h[..6])))
  }

  /** `n.toString(16).padStart(2, "0")` for an integer `n`. */
  function HexByte(n: int): string {
    var digits := if n < 0 then "-" + NatToHex(-n) else NatToHex(n);
    if |digits| >= 2 then digits else "0" + digits
  }

  /** A byte is written as exactly two digits. */
  lemma HexByteDigits(n: int)
    requires 0 <= n < 256
    ensures HexByte(n) == [HexDigit(n / 16), HexDigit(n % 16)]
  {
    if n >= 16 {
      assert NatToHex(n) == NatToHex(n / 16) + [HexDigit(n % 16)];
    } else {
      assert HexDigit(0) == '0';
    }
  }

  /** `rgbToHex({ r, g, b })` */
  function RgbToHex(c: Rgb): string {
    "#" + HexByte(c.r) + HexByte(c.g) + HexByte(c.b)
  }

  /** `#` and three two-digit lower-case groups, one per component. */
  lemma RgbToHexShape(c: Rgb)
    requires InByteRange(c)
    ensures var s := RgbToHex(c);
      && s == "#" + [HexDigit(c.r / 16), HexDigit(c.r % 16), HexDigit(c.g / 16),
                     HexDigit(c.g % 16), HexDigit(c.b / 16), HexDigit(c.b % 16)]
      && forall i :: 1 <= i < 7 ==> IsLowerHexDigit(s[i])
  {
    HexByteDigits(c.r);
    HexByteDigits(c.g);
    HexByteDigits(c.b);
    HexDigitIsLower(c.r / 16); HexDigitIsLower(c.r % 16);
    HexDigitIsLower(c.g / 16); HexDigitIsLower(c.g % 16);
    HexDigitIsLower(c.b / 16); HexDigitIsLower(c.b % 16);
  }

  predicate IsLowerHexDigit(c: char) {
    '0' <= c <= '9' || 'a' <= c <= 'f'
  }

  lemma HexDigitIsLower(d: nat)
    requires d < 16
    ensures IsLowerHexDigit(HexDigit(d)) && HexValue(HexDigit(d)) == Some(d)
  {
  }

  /** A colour of byte components written by `rgbToHex` is read back by `hexToRgb`. */
  lemma RgbHexRoundTrip(c: Rgb)
    requires InByteRange(c)
    ensures HexToRgb(RgbToHex(c)) == Some(c)
  {
    var d := RgbToHex(c)[1..];
    SixDigitValue(c);
    assert RgbToHex(c) == "#" + d;
    ReadSix(d);
    Unpack(HexNumber(d), c);
  }

  /** Lower-case hexadecimal digits hold no white space, so trimming leaves them alone. */
  lemma NoSpaceInHex(d: string)
    requires |d| > 0 && forall i :: 0 <= i < |d| ==> IsHexDigit(d[i])
    ensures Trim(d) == d && TrimStart(d) == d
  {
    assert !IsJsSpace(d[0]) && !IsJsSpace(d[|d| - 1]);
    TrimmedIsFixed(d);
  }

  /** Six digits with no sign and no `0x` in front parse as their value. */
  lemma ParseSixDigits(d: string)
    requires |d| == 6 && forall i :: 0 <= i < 6 ==> IsHexDigit(d[i])
    requires d[1] != 'x' && d[1] != 'X'
    ensures ParseHexInt(d) == Some(HexNumber(d))
  {
    NoSpaceInHex(d);
    assert d[0] != '-' && d[0] != '+';
    assert HexPrefix(d) == d by {
      var p := HexPrefix(d);
      if |p| < |d| {
        assert false;
      }
    }
  }

  /** The six digits `rgbToHex` writes have the value r·65536 + g·256 + b. */
  lemma SixDigitValue(c: Rgb)
    requires InByteRange(c)
    ensures var d := RgbToHex(c)[1..];
      && (forall i :: 0 <= i < 6 ==> IsHexDigit(d[i]))
      && d[1] != 'x' && d[1] != 'X'
      && HexNumber(d) == c.r * 65536 + c.g * 256 + c.b
  {
    var d := RgbToHex(c)[1..];
    RgbToHexShape(c);
    ByteDigits(c.r, d[..2]);
    ByteDigits(c.g, d[2..4]);
    ByteDigits(c.b, d[4..]);
    SixDigitSplit(d);
  }

  /** The two digits written for a byte have the byte's value. */
  lemma ByteDigits(n: int, x: string)
    requires 0 <= n < 256 && x == [HexDigit(n / 16), HexDigit(n % 16)]
    ensures IsHexDigit(x[0]) && IsHexDigit(x[1]) && HexNumber(x) == n
  {
    HexDigitIsLower(n / 16);
    HexDigitIsLower(n % 16);
    TwoDigits(x);
  }

  /** Shifting and masking take a number apart into the bytes it was made of. */
  lemma Unpack(n: int, c: Rgb)
    requires InByteRange(c) && n == c.r * 65536 + c.g * 256 + c.b
    ensures Components(Some(n)) == c
  {
    assert n / 65536 == c.r;
    assert n / 256 == c.r * 256 + c.g;
    assert n % 256 == c.b;
  }

  /** A written colour read back is the six digits in lower case: the colour table of the
      scraper keys each colour by this normal form. */
  lemma HexRgbRoundTrip(d: string)
    requires |d| == 6 && forall i :: 0 <= i < 6 ==> IsHexDigit(d[i])
    ensures HexToRgb("#" + d).Some?
    ensures RgbToHex(HexToRgb("#" + d).value) == "#" + AsciiLower(d)
  {
    ReadGroups(d);
    WriteSix(d);
  }

  /** Six digits after `#` are read as three two-digit groups. */
  lemma ReadGroups(d: string)
    requires |d| == 6 && forall i :: 0 <= i < 6 ==> IsHexDigit(d[i])
    ensures HexToRgb("#" + d) == Some(Rgb(HexNumber(d[..2]), HexNumber(d[2..4]), HexNumber(d[4..])))
  {
    ReadSix(d);
    SixDigitComponents(d);
  }

  lemma SixDigitComponents(d: string)
    requires |d| == 6 && forall i :: 0 <= i < 6 ==> IsHexDigit(d[i])
    ensures Components(Some(HexNumber(d))) == Rgb(HexNumber(d[..2]), HexNumber(d[2..4]), HexNumber(d[4..]))
  {
    var r, g, b := d[..2], d[2..4], d[4..];
    SixDigitSplit(d);
    TwoDigits(r);
    TwoDigits(g);
    TwoDigits(b);
    Unpack(HexNumber(d), Rgb(HexNumber(r), HexNumber(g), HexNumber(b)));
  }

  /** The three groups of six digits written again are the digits in lower case. */
  lemma WriteSix(d: string)
    requires |d| == 6 && forall i :: 0 <= i < 6 ==> IsHexDigit(d[i])
    ensures RgbToHex(Rgb(HexNumber(d[..2]), HexNumber(d[2..4]), HexNumber(d[4..]))) == "#" + AsciiLower(d)
  {
    HexByteLower(d[..2]);
    HexByteLower(d[2..4]);
    HexByteLower(d[4..]);
    LowerInThirds(d);
  }

  lemma LowerInThirds(d: string)
    requires |d| == 6
    ensures AsciiLower(d[..2]) + AsciiLower(d[2..4]) + AsciiLower(d[4..]) == AsciiLower(d)
  {
    var lower := AsciiLower(d[..2]) + AsciiLower(d[2..4]) + AsciiLower(d[4..]);
    assert forall i :: 0 <= i < 6 ==> lower[i] == AsciiLowerChar(d[i]);
  }

  /** Six digits after `#` are read as their value. */
  lemma ReadSix(d: string)
    requires |d| == 6 && forall i :: 0 <= i < 6 ==> IsHexDigit(d[i])
    ensures HexToRgb("#" + d) == Some(Components(Some(HexNumber(d))))
  {
    var s := "#" + d;
    assert s[1..] == d;
    NoSpaceInHex(d);
    assert ExpandedDigits(s) == d;
    ParseSixDigits(d);
    assert d[..6] == d;
  }

  /** Two digits read and written again come back in lower case. */
  lemma HexByteLower(x: string)
    requires |x| == 2 && IsHexDigit(x[0]) && IsHexDigit(x[1])
    ensures HexByte(HexNumber(x)) == AsciiLower(x)
  {
    TwoDigits(x);
    HexByteDigits(HexNumber(x));
    HexDigitOfValue(x[0]);
    HexDigitOfValue(x[1]);
  }

  /** The digit written for a digit's value is that digit in lower case. */
  lemma HexDigitOfValue(c: char)
    requires IsHexDigit(c)
    ensures HexValue(c).value < 16 && HexDigit(HexValue(c).value) == AsciiLowerChar(c)
  {
  }

  /** Two digits: the first counts sixteen times. */
  lemma TwoDigits(x: string)
    requires |x| == 2 && IsHexDigit(x[0]) && IsHexDigit(x[1])
    ensures HexValue(x[0]).value < 16 && HexValue(x[1]).value < 16
    ensures HexNumber(x) == HexValue(x[0]).value * 16 + HexValue(x[1]).value
    ensures HexNumber(x) / 16 == HexValue(x[0]).value && HexNumber(x) % 16 == HexValue(x[1]).value
  {
    var first := x[..1];
    assert first[..0] == [] && first[0] == x[0];
    assert HexNumber(first) == HexValue(x[0]).value;
    assert x[..|x| - 1] == first;
  }

  /** Six digits are three two-digit groups. */
  lemma SixDigitSplit(d: string)
    requires |d| == 6 && forall i :: 0 <= i < 6 ==> IsHexDigit(d[i])
    ensures HexNumber(d) == HexNumber(d[..2]) * 65536 + HexNumber(d[2..4]) * 256 + HexNumber(d[4..])
  {
    TwoDigits(d[..2]);
    TwoDigits(d[2..4]);
    TwoDigits(d[4..]);
    var h2 := HexNumber(d[..2]);
    assert d[..3][..2] == d[..2] && d[..4][..3] == d[..3] && d[..5][..4] == d[..4];
    assert d[..|d| - 1] == d[..5];
    assert HexNumber(d[..3]) == h2 * 16 + HexValue(d[2]).value;
    assert HexNumber(d[..4]) == h2 * 256 + HexNumber(d[2..4]);
    assert HexNumber(d[..5]) == h2 * 4096 + HexNumber(d[2..4]) * 16 + HexValue(d[4]).value;
  }

  /** A three-character form reads as its doubled six-character form. */
  lemma ShortFormDoubled(h: string)
    requires |h| == 3 && !IsJsSpace(h[0]) && !IsJsSpace(h[2])
    ensures HexToRgb("#" + h) == HexToRgb("#" + Doubled(h))
  {
    assert ("#" + h)[1..] == h;
    TrimmedIsFixed(h);
    var dd := Doubled(h);
    assert ("#" + dd)[1..] == dd;
    assert dd[0] == h[0] && dd[5] == h[2];
    TrimmedIsFixed(dd);
  }

  /** Only the first six digits count: whatever follows them is ignored. */
  lemma OnlySixDigitsRead(d: string, rest: string)
    requires |d| == 6 && forall i :: 0 <= i < 6 ==> IsHexDigit(d[i])
    ensures HexToRgb("#" + d + rest) == HexToRgb("#" + d)
  {
    assert "#" + d + rest == "#" + (d + rest);
    NoSpaceInHex(d);
    TrimKeepsDigits(d, rest);
    ExpandedAfterHash(d);
    assert d[..6] == d;
    ReadsFirstSix("#" + d, d);
    ExpandedAfterHash(d + rest);
    ReadsFirstSix("#" + (d + rest), d);
  }

  /** The colour is read from the first six expanded digits. */
  lemma ReadsFirstSix(hex: string, d: string)
    requires |ExpandedDigits(hex)| >= 6 && ExpandedDigits(hex)[..6] == d
    ensures HexToRgb(hex) == Some(Components(ParseHexInt(d)))
  {
  }

  /** After `#`, anything that does not trim to three characters is read as trimmed. */
  lemma ExpandedAfterHash(x: string)
    requires |Trim(x)| != 3
    ensures ExpandedDigits("#" + x) == Trim(x)
  {
    assert ("#" + x)[1..] == x;
  }

  /** Trimming white space cannot reach into a run of digits at the front. */
  lemma TrimKeepsDigits(d: string, rest: string)
    requires |d| == 6 && forall i :: 0 <= i < 6 ==> IsHexDigit(d[i])
    ensures |Trim(d + rest)| >= 6 && Trim(d + rest)[..6] == d
  {
    var s := d + rest;
    assert !IsJsSpace(s[0]);
    assert TrimStart(s) == s;
    var e := TrimEnd(s);
    assert !IsJsSpace(s[5]);
    assert |e| >= 6 by {
      if |e| < 6 {
        assert false;
      }
    }
    assert e[..6] == s[..6] == d;
  }

  // ---------------------------------------------------------------------------------------
  // generateLoremLabel (src/scrape.js:201-213)
  // ---------------------------------------------------------------------------------------

  const Phrases: seq<string> := [
    "Lorem ipsum", "Dolor sit amet", "Consectetur", "Adipiscing elit",
    "Sed do eiusmod", "Tempor incididunt", "Ut labore", "Dolore magna"]

  /** `generateLoremLabel(index)` for the placeholder counter `index`. */
  function LoremLabel(index: nat): (r: string)
    ensures r in Phrases
  {
    Phrases[index % |Phrases|]
  }

  /** Two counters get the same label exactly when they are equal modulo 8: the labels
      repeat with period 8 and no shorter one. */
  lemma LabelsCycle(i: nat, j: nat)
    ensures LoremLabel(i) == LoremLabel(j) <==> i % 8 == j % 8
  {
    PhrasesDistinct();
  }

  lemma PhrasesDistinct()
    ensures forall a, b :: 0 <= a < b < |Phrases| ==> Phrases[a] != Phrases[b]
  {
    forall a, b | 0 <= a < b < |Phrases|
      ensures Phrases[a] != Phrases[b]
    {
      if |Phrases[a]| == |Phrases[b]| {
        assert Phrases[a][0] != Phrases[b][0];
      }
    }
  }

  // ---------------------------------------------------------------------------------------
  // esc in buildSvgDataUri (src/scrape.js:191)
  // ---------------------------------------------------------------------------------------

  /** `s.replace(/c/g, rep)` for a single character `c`. */
  function ReplaceAll(s: string, c: char, rep: string): (r: string)
    ensures forall i :: 0 <= i < |r| ==> r[i] in rep || (r[i] in s && r[i] != c)
  {
    if |s| == 0 then ""
    else (if s[0] == c then rep else [s[0]]) + ReplaceAll(s[1..], c, rep)
  }

  /** `esc(s)`: `&` first, then `<` and `>`, become character references. */
  function Escape(s: string): (r: string)
    ensures '<' !in r && '>' !in r
  {
    var amp := ReplaceAll(s, '&', "&amp;");
    var lt := ReplaceAll(amp, '<', "&lt;");
    assert '<' !in lt;
    ReplaceAll(lt, '>', "&gt;")
  }

  function EscapeChar(c: char): string {
    if c == '&' then "&amp;" else if c == '<' then "&lt;" else if c == '>' then "&gt;" else [c]
  }

  /** Reading the three character references back: the inverse of `Escape`. */
  function Unescape(s: string): string
    decreases |s|
  {
    if |s| == 0 then ""
    else if StartsWith(s, "&amp;") then "&" + Unescape(s[5..])
    else if StartsWith(s, "&lt;") then "<" + Unescape(s[4..])
    else if StartsWith(s, "&gt;") then ">" + Unescape(s[4..])
    else [s[0]] + Unescape(s[1..])
  }

  lemma {:induction false} ReplaceAllAppend(a: string, b: string, c: char, rep: string)
    ensures ReplaceAll(a + b, c, rep) == ReplaceAll(a, c, rep) + ReplaceAll(b, c, rep)
  {
    if |a| > 0 {
      assert (a + b)[1..] == a[1..] + b;
      ReplaceAllAppend(a[1..], b, c, rep);
    } else {
      assert a + b == b;
    }
  }

  lemma {:induction false} ReplaceAbsent(s: string, c: char, rep: string)
    requires c !in s
    ensures ReplaceAll(s, c, rep) == s
  {
    if |s| > 0 {
      assert c !in s[1..];
      ReplaceAbsent(s[1..], c, rep);
    }
  }

  /** Escaping works character by character. */
  lemma EscapeCons(s: string)
    requires |s| > 0
    ensures Escape(s) == EscapeChar(s[0]) + Escape(s[1..])
  {
    assert s == [s[0]] + s[1..];
    ReplaceAllAppend([s[0]], s[1..], '&', "&amp;");
    var head := ReplaceAll([s[0]], '&', "&amp;");
    var tail := ReplaceAll(s[1..], '&', "&amp;");
    ReplaceAllAppend(head, tail, '<', "&lt;");
    var head2 := ReplaceAll(head, '<', "&lt;");
    var tail2 := ReplaceAll(tail, '<', "&lt;");
    ReplaceAllAppend(head2, tail2, '>', "&gt;");
    EscapeOneChar(s[0]);
  }

  lemma EscapeOneChar(c: char)
    ensures Escape([c]) == EscapeChar(c)
  {
    if c == '&' {
      EscapeAmpChar();
    } else if c == '<' {
      EscapeLtChar();
    } else if c == '>' {
      EscapeGtChar();
    } else {
      ReplaceOne(c, '&', "&amp;");
      ReplaceOne(c, '<', "&lt;");
      ReplaceOne(c, '>', "&gt;");
    }
  }

  lemma EscapeAmpChar()
    ensures Escape("&") == "&amp;"
  {
    var amp := "&amp;";
    ReplaceOne('&', '&', amp);
    assert '<' !in amp && '>' !in amp;
    ReplaceAbsent(amp, '<', "&lt;");
    ReplaceAbsent(amp, '>', "&gt;");
  }

  lemma EscapeLtChar()
    ensures Escape("<") == "&lt;"
  {
    ReplaceOne('<', '&', "&amp;");
    ReplaceOne('<', '<', "&lt;");
    ReplaceAbsent("&lt;", '>', "&gt;");
  }

  lemma EscapeGtChar()
    ensures Escape(">") == "&gt;"
  {
    ReplaceOne('>', '&', "&amp;");
    ReplaceOne('>', '<', "&lt;");
    ReplaceOne('>', '>', "&gt;");
  }

  /** A single character is replaced or kept. */
  lemma ReplaceOne(x: char, c: char, rep: string)
    ensures ReplaceAll([x], c, rep) == if x == c then rep else [x]
  {
    assert [x][1..] == [];
  }

  /** The escaped label reads back as the label. */
  lemma {:induction false} EscapeRoundTrip(s: string)
    ensures Unescape(Escape(s)) == s
  {
    if |s| > 0 {
      EscapeCons(s);
      EscapeRoundTrip(s[1..]);
      UnescapeOne(s[0], Escape(s[1..]));
      assert s == [s[0]] + s[1..];
    }
  }

  /** One escaped character in front reads back as that character. */
  lemma UnescapeOne(c: char, rest: string)
    ensures Unescape(EscapeChar(c) + rest) == [c] + Unescape(rest)
  {
    if c == '&' {
      UnescapeAmp(rest);
    } else if c == '<' {
      UnescapeLt(rest);
    } else if c == '>' {
      UnescapeGt(rest);
    } else {
      var e := [c] + rest;
      assert e[0] == c && e[1..] == rest;
    }
  }

  lemma UnescapeAmp(rest: string)
    ensures Unescape("&amp;" + rest) == "&" + Unescape(rest)
  {
    var e := "&amp;" + rest;
    assert e[..5] == "&amp;" && e[5..] == rest;
  }

  lemma UnescapeLt(rest: string)
    ensures Unescape("&lt;" + rest) == "<" + Unescape(rest)
  {
    var e := "&lt;" + rest;
    assert !StartsWith(e, "&amp;") by {
      assert e[1] == 'l';
    }
    assert StartsWith(e, "&lt;") by {
      assert e[..4] == "&lt;";
    }
    assert e[4..] == rest;
  }

  lemma UnescapeGt(rest: string)
    ensures Unescape("&gt;" + rest) == ">" + Unescape(rest)
  {
    var e := "&gt;" + rest;
    assert !StartsWith(e, "&amp;") && !StartsWith(e, "&lt;") by {
      assert e[1] == 'g';
    }
    assert StartsWith(e, "&gt;") by {
      assert e[..4] == "&gt;";
    }
    assert e[4..] == rest;
  }

  /** The labels hold no character `esc` changes. */
  lemma LabelsNeedNoEscape(index: nat)
    ensures Escape(LoremLabel(index)) == LoremLabel(index)
  {
    var words := LoremLabel(index);
    PhraseHasNoMarkup(index % |Phrases|);
    ReplaceAbsent(words, '&', "&amp;");
    ReplaceAbsent(words, '<', "&lt;");
    ReplaceAbsent(words, '>', "&gt;");
  }

  lemma PhraseHasNoMarkup(k: nat)
    requires k < |Phrases|
    ensures '&' !in Phrases[k] && '<' !in Phrases[k] && '>' !in Phrases[k]
  {
    var p := Phrases[k];
    assert NoMarkup(p) by {
      if k < 4 {
        assert p in ["Lorem ipsum", "Dolor sit amet", "Consectetur", "Adipiscing elit"];
      } else {
        assert p in ["Sed do eiusmod", "Tempor incididunt", "Ut labore", "Dolore magna"];
      }
    }
  }

  /** Letters and spaces only. */
  predicate NoMarkup(p: string) {
    forall i :: 0 <= i < |p| ==> p[i] == ' ' || 'A' <= p[i] <= 'z'
  }

  // ---------------------------------------------------------------------------------------
  // buildSvgDataUri (src/scrape.js:190-199)
  // ---------------------------------------------------------------------------------------

  /** `Math.round(Math.min(width, height) * 0.12)`. Twelve hundredths of a whole number is
      never exactly halfway between two whole numbers, so the rounding is exact here. */
  function FontSize(width: nat, height: nat): (r: nat)
    ensures var m := if width < height then width else height;
      100 * r <= 12 * m + 50 < 100 * r + 100
  {
    var m := if width < height then width else height;
    (12 * m + 50) / 100
  }

  /** The SVG text up to the opening `text` tag, whose content is the label. */
  function SvgHead(width: nat, height: nat, bgHex: string, textHex: string): string {
    var w, h := NatToDecimal(width), NatToDecimal(height);
    "<?xml version=\"1.0\" encoding=\"UTF-8\"?>\n"
    + "<svg xmlns=\"http://www.w3.org/2000/svg\" width=\"" + w + "\" height=\"" + h
    + "\" viewBox=\"0 0 " + w + " " + h + "\">\n"
    + "  <rect width=\"100%\" height=\"100%\" fill=\"" + bgHex + "\"/>\n"
    + "  <text x=\"50%\" y=\"50%\" dominant-baseline=\"middle\" text-anchor=\"middle\" fill=\""
    + textHex + "\" font-family=\"system-ui, -apple-system, Segoe UI, Roboto, sans-serif\" font-size=\""
    + NatToDecimal(FontSize(width, height)) + "\" font-weight=\"600\">"
  }

  const SvgTail: string := "</text>\n</svg>"

  /** The SVG document of one placeholder. */
  function SvgMarkup(width: nat, height: nat, bgHex: string, textHex: string, words: string): string {
    SvgHead(width, height, bgHex, textHex) + Escape(words) + SvgTail
  }

  /** The label cannot open or close a tag: in a document made of any head, the escaped
      label and the closing tail, the text between head and tail holds no `<` and reads
      back as the label. `SvgMarkup` is such a document. */
  lemma LabelReadBack(head: string, words: string)
    ensures var svg := head + Escape(words) + SvgTail;
      var n, e := |head|, |svg| - |SvgTail|;
      && n <= e && svg[e..] == SvgTail
      && '<' !in svg[n..e] && Unescape(svg[n..e]) == words
  {
    var svg := head + Escape(words) + SvgTail;
    assert svg[|head|..|svg| - |SvgTail|] == Escape(words);
    EscapeRoundTrip(words);
  }

  /** The placeholders are 600 by 400, so their label is set in 48 units. */
  lemma PlaceholderFontSize()
    ensures FontSize(600, 400) == 48
  {
  }

  /** `data:image/svg+xml;charset=utf-8,` followed by `encodeURIComponent(svg)`; the
      percent-encoding is a parameter. */
  function DataUri(svg: string, encode: string -> string): (r: string)
    ensures StartsWith(r, "data:image/svg+xml;charset=utf-8,")
  {
    "data:image/svg+xml;charset=utf-8," + encode(svg)
  }

  // ---------------------------------------------------------------------------------------
  // The placeholder loop (src/scrape.js:298-315)
  // ---------------------------------------------------------------------------------------

  /** A palette entry: its `hex`, and whether its relative luminance reaches 0.6. The
      luminance is computed in floating point and is not part of this model. */
  datatype Swatch = Swatch(hex: string, light: bool)

  /** `pickTextColorForBackground(bg)` */
  function TextColor(bg: Swatch): string {
    if bg.light then "#111111" else "#ffffff"
  }

  /** The data URI given to the image met when the counter is `k`. */
  function PlaceholderUri(palette: seq<Swatch>, encode: string -> string, k: nat): string
    requires |palette| > 0
  {
    var bg := palette[k % |palette|];
    DataUri(SvgMarkup(600, 400, bg.hex, TextColor(bg), LoremLabel(k)), encode)
  }

  /** The data URIs of the whole run, by counter. */
  function PlaceholderSrc(palette: seq<Swatch>, encode: string -> string): nat -> string
    requires |palette| > 0
  {
    (k: nat) => PlaceholderUri(palette, encode, k)
  }

  /** An image's placeholder depends on its counter only through the counter's remainders
      modulo the palette size and modulo the eight labels. */
  lemma PlaceholderUriResidues(palette: seq<Swatch>, encode: string -> string, i: nat, j: nat)
    requires |palette| > 0 && i % |palette| == j % |palette| && i % 8 == j % 8
    ensures PlaceholderUri(palette, encode, i) == PlaceholderUri(palette, encode, j)
  {
    assert LoremLabel(i) == LoremLabel(j);
  }

  /** `img` */
  const ImageSelector: seq<Simple> := [Named("img")]

  predicate IsImage(t: Tree, i: NodeId)
    requires WellFormed(t) && i < |t|
  {
    MatchesAny(t, i, ImageSelector)
  }

  /** The counter's value when the loop reaches node `i`: the images before it. */
  function ImageRank(t: Tree, i: NodeId): nat
    requires WellFormed(t) && i <= |t|
  {
    |SelectUpTo(t, None, ImageSelector, i)|
  }

  predicate PlaceholderAttr(a: string) {
    a == "src" || a == "srcset" || a == "sizes" || a == "alt"
  }

  /** An image's attributes after its four writes: `src` is the placeholder, `srcset` and
      `sizes` are gone, `alt` is "placeholder", and every other attribute is kept. */
  function Placeheld(attrs: map<string, string>, src: string): (r: map<string, string>)
    ensures "src" in r && r["src"] == src
    ensures "srcset" !in r && "sizes" !in r
    ensures "alt" in r && r["alt"] == "placeholder"
    ensures forall a :: !PlaceholderAttr(a) ==>
      (a in r <==> a in attrs) && (a in attrs ==> r[a] == attrs[a])
  {
    ((attrs["src" := src] - {"srcset"}) - {"sizes"})["alt" := "placeholder"]
  }

  /** The document after the placeholder loop, where the image met when the counter is
      `k` gets `src(k)` (`PlaceholderUri` in the scraper). */
  function WithPlaceholders(t: Tree, src: nat -> string): (r: Tree)
    requires WellFormed(t)
    ensures SameShape(t, r) && WellFormed(r)
    ensures forall i :: 0 <= i < |t| ==>
      r[i] == if IsImage(t, i) then t[i].(attrs := Placeheld(t[i].attrs, src(ImageRank(t, i)))) else t[i]
  {
    var r := seq(|t|, i requires 0 <= i < |t| =>
      if IsImage(t, i) then t[i].(attrs := Placeheld(t[i].attrs, src(ImageRank(t, i)))) else t[i]);
    SameShapeWellFormed(t, r);
    r
  }

  /** The `k`-th image in document order is the one the loop meets when the counter is `k`:
      it gets `src(k)` and the other writes of `Placeheld`. */
  lemma PlaceholderOfImage(t: Tree, src: nat -> string, k: nat)
    requires WellFormed(t) && k < |Select(t, None, ImageSelector)|
    ensures var i := Select(t, None, ImageSelector)[k];
      WithPlaceholders(t, src)[i] == t[i].(attrs := Placeheld(t[i].attrs, src(k)))
  {
    var i := Select(t, None, ImageSelector)[k];
    SelectSound(t, None, ImageSelector);
    SelectRank(t, None, ImageSelector, k);
    assert IsImage(t, i);
  }

  /** Nodes that are not images keep all their attributes. */
  lemma OnlyImagesChange(t: Tree, src: nat -> string, i: NodeId)
    requires WellFormed(t) && i < |t| && i !in Select(t, None, ImageSelector)
    ensures WithPlaceholders(t, src)[i] == t[i]
  {
    SelectSound(t, None, ImageSelector);
  }

  /** Running the loop a second time changes nothing: the images are the same nodes in the
      same order, so each gets the same attributes again. */
  lemma PlaceholdersIdempotent(t: Tree, src: nat -> string)
    requires WellFormed(t)
    ensures var r := WithPlaceholders(t, src);
      WithPlaceholders(r, src) == r
  {
    var r := WithPlaceholders(t, src);
    forall i | 0 <= i < |t|
      ensures WithPlaceholders(r, src)[i] == r[i]
    {
      SameImages(t, r, i);
      assert IsImage(t, i) <==> IsImage(r, i) by {
        assert Matches(t, i, ImageSelector[0]) <==> Matches(r, i, ImageSelector[0]);
      }
    }
  }

  /** Trees of the same shape select the same images. */
  lemma {:induction false} SameImages(a: Tree, b: Tree, n: nat)
    requires WellFormed(a) && SameShape(a, b) && n <= |a|
    ensures WellFormed(b) && SelectUpTo(a, None, ImageSelector, n) == SelectUpTo(b, None, ImageSelector, n)
  {
    SameShapeWellFormed(a, b);
    if n > 0 {
      SameImages(a, b, n - 1);
      assert Matches(a, n - 1, ImageSelector[0]) <==> Matches(b, n - 1, ImageSelector[0]);
    }
  }

  /** `$("img").each(...)` with the running `counter`. */
  method AssignPlaceholders(doc: Document, palette: seq<Swatch>, encode: string -> string)
    requires WellFormed(doc.nodes) && |palette| > 0
    modifies doc
    ensures doc.nodes == WithPlaceholders(old(doc.nodes), PlaceholderSrc(palette, encode))
  {
    ghost var t := doc.nodes;
    var src := PlaceholderSrc(palette, encode);
    var images := Select(doc.nodes, None, ImageSelector);
    PlacedNone(t, src, images);
    var counter := 0;
    while counter < |images|
      invariant counter <= |images|
      invariant doc.nodes == PlacedUpTo(t, src, images, counter)
    {
      var el := images[counter];
      var idx := counter;
      counter := counter + 1;
      var uri := src(idx);
      PlacedStep(t, src, images, idx);
      PlaceOne(doc, el, uri);
    }
    PlacedAll(t, src, images);
  }

  /** The document when the loop has handled the first `c` images. */
  ghost function PlacedUpTo(t: Tree, src: nat -> string, images: seq<NodeId>, c: nat): (r: Tree)
    requires WellFormed(t) && c <= |images|
    ensures |r| == |t|
  {
    seq(|t|, i requires 0 <= i < |t| =>
      if i in images[..c] then t[i].(attrs := Placeheld(t[i].attrs, src(ImageRank(t, i)))) else t[i])
  }

  lemma PlacedNone(t: Tree, src: nat -> string, images: seq<NodeId>)
    requires WellFormed(t)
    ensures PlacedUpTo(t, src, images, 0) == t
  {
  }

  /** One more turn of the loop writes the next image, met with the counter at `c`. */
  lemma PlacedStep(t: Tree, src: nat -> string, images: seq<NodeId>, c: nat)
    requires WellFormed(t) && images == Select(t, None, ImageSelector) && c < |images|
    ensures var before, el := PlacedUpTo(t, src, images, c), images[c];
      && el < |before| && before[el] == t[el]
      && PlacedUpTo(t, src, images, c + 1) == before[el := before[el].(attrs := Placeheld(before[el].attrs, src(c)))]
  {
    var el := images[c];
    SelectSound(t, None, ImageSelector);
    SelectRank(t, None, ImageSelector, c);
    assert el !in images[..c];
    assert images[..c + 1] == images[..c] + [el];
    var before, after := PlacedUpTo(t, src, images, c), PlacedUpTo(t, src, images, c + 1);
    assert ImageRank(t, el) == c;
    forall i | 0 <= i < |t|
      ensures after[i] == before[el := before[el].(attrs := Placeheld(before[el].attrs, src(c)))][i]
    {
      if i != el {
        assert i in images[..c + 1] <==> i in images[..c];
      }
    }
  }

  /** After the last turn the document is `WithPlaceholders`. */
  lemma PlacedAll(t: Tree, src: nat -> string, images: seq<NodeId>)
    requires WellFormed(t) && images == Select(t, None, ImageSelector)
    ensures PlacedUpTo(t, src, images, |images|) == WithPlaceholders(t, src)
  {
    SelectSound(t, None, ImageSelector);
    assert images[..|images|] == images;
    forall i | 0 <= i < |t|
      ensures PlacedUpTo(t, src, images, |images|)[i] == WithPlaceholders(t, src)[i]
    {
      assert i in images <==> IsImage(t, i);
    }
  }

  /** The four attribute writes on one image. */
  method PlaceOne(doc: Document, el: NodeId, uri: string)
    requires el < |doc.nodes|
    modifies doc
    ensures doc.nodes == old(doc.nodes)[el := old(doc.nodes)[el].(attrs := Placeheld(old(doc.nodes)[el].attrs, uri))]
  {
    doc.nodes := SetAttr(doc.nodes, el, "src", uri);
    doc.nodes := RemoveAttr(doc.nodes, el, "srcset");
    doc.nodes := RemoveAttr(doc.nodes, el, "sizes");
    doc.nodes := SetAttr(doc.nodes, el, "alt", "placeholder");
  }
}
