/**
  `toYaml(obj, indent)`: the small YAML writer that the optimiser, the feature collector and
  the segmenter each carry a copy of, to write their JSON results as `.yml` files.
  `null`, empty containers and the empty string have fixed spellings; a string holding `:`,
  `#`, `-` or a `\n` is written as a JSON string literal; an array item is `- `
  followed by the item's rendering with its leading white space removed; an object entry is
  `key: value`, or `key:` with the value on the following lines.

  The test that sends a value below its key looks at the rendered text (it starts with `{`
  or `[`, or spans several lines). `Layout` selects between that test (`Original`, which is
  what the writer does) and the test on the value itself (`Corrected`, a non-empty
  container goes below its key); `CorrectedLayout` proves the indentation the corrected
  writer keeps, and `OriginalMisplacesEmpty` and `OriginalMisplacesBlock` show two inputs on
  which the original does not.
*/
module Yaml {
  import opened Text
  import opened JsValue

  /** Which test decides that an object entry's value goes on the lines below its key. */
  datatype Layout = Original | Corrected

  /** `" ".repeat(n)` */
  function Pad(n: nat): (r: string)
    ensures |r| == n && forall i :: 0 <= i < n ==> r[i] == ' '
  {
    seq(n, _ => ' ')
  }

  /** The characters that make the writer quote a string (`/[:#\-\n]/`). */
  predicate NeedsQuotes(s: string) {
    ':' in s || '#' in s || '-' in s || '\n' in s
  }

  /** A string value: `''` when empty, a JSON literal when it needs quotes, else itself. */
  function Scalar(s: string): (r: string)
    ensures '\n' !in r
    ensures r == "''" <==> s == "" || s == "''"
    ensures r == JsonQuote(s) <==> s != "" && NeedsQuotes(s)
    ensures r == s <==> s != "" && !NeedsQuotes(s)
  {
    if s == "" then "''"
    else if NeedsQuotes(s) then
      var q := JsonQuote(s);
      assert q[0] == '"' && forall i :: 0 <= i < |q| ==> q[i] >= ' ';
      q
    else s
  }

  /** A non-empty array or object: written as a block of lines. */
  predicate Block(v: Json) {
    (v.JArr? && |v.items| > 0) || (v.JObj? && |v.fields| > 0)
  }

  /** `toYaml(v, indent)` with the given test for placing an entry's value. */
  function Render(v: Json, indent: nat, layout: Layout): string
    decreases v, 2
  {
    match v
    case JNull => "null"
    case JArr(items) => if |items| == 0 then "[]" else Join(ItemLines(items, indent, layout), "\n")
    case JObj(fields) =>
      var es := Entries(v);
      if |es| == 0 then "{}" else Join(EntryLines(v, es, indent, layout), "\n")
    case JStr(s) => Scalar(s)
    case _ => ToJsString(v)
  }

  /** The writer as it is. */
  function ToYaml(v: Json, indent: nat): string {
    Render(v, indent, Original)
  }

  /** One line group per array item. */
  function ItemLines(items: seq<Json>, indent: nat, layout: Layout): (r: seq<string>)
    ensures |r| == |items|
    decreases items, 1
  {
    if |items| == 0 then []
    else [ItemLine(indent, Render(items[0], indent + 2, layout))] + ItemLines(items[1..], indent, layout)
  }

  /** An array item: the dash at `indent`, then the item's rendering without its leading
      white space. */
  function ItemLine(indent: nat, item: string): string {
    Pad(indent) + "- " + TrimStart(item)
  }

  /** One line group per entry `es` of the object `v`. */
  function EntryLines(v: Json, es: seq<(string, Json)>, indent: nat, layout: Layout): (r: seq<string>)
    requires v.JObj? && forall i :: 0 <= i < |es| ==> es[i] in v.fields
    ensures |r| == |es|
    decreases v, 1, |es|
  {
    if |es| == 0 then []
    else
      var key := es[0].0;
      var value := es[0].1;
      [EntryLine(indent, key, value, Render(value, indent + 2, layout), layout)]
        + EntryLines(v, es[1..], indent, layout)
  }

  /** An object entry, its value `rendered` either on the key's line or below it. */
  function EntryLine(indent: nat, key: string, value: Json, rendered: string, layout: Layout): string {
    if BelowKey(value, rendered, layout) then Pad(indent) + key + ":\n" + rendered
    else Pad(indent) + key + ": " + rendered
  }

  predicate BelowKey(value: Json, rendered: string, layout: Layout) {
    match layout
    case Original => StartsWith(rendered, "{") || StartsWith(rendered, "[") || '\n' in rendered
    case Corrected => Block(value)
  }

  /** The fixed spellings of `null`, the empty containers and the empty string. */
  lemma FixedSpellings(indent: nat)
    ensures ToYaml(JNull, indent) == "null"
    ensures ToYaml(JArr([]), indent) == "[]"
    ensures ToYaml(JObj([]), indent) == "{}"
    ensures ToYaml(JStr(""), indent) == "''"
  {
  }

  /** No key of `v`, at any depth, contains a line break. */
  predicate PlainKeys(v: Json)
    decreases v
  {
    match v
    case JArr(items) => forall i :: 0 <= i < |items| ==> PlainKeys(items[i])
    case JObj(fields) => forall i :: 0 <= i < |fields| ==> '\n' !in fields[i].0 && PlainKeys(fields[i].1)
    case _ => true
  }

  predicate LeadingSpaces(line: string, n: nat) {
    n <= |line| && forall i :: 0 <= i < n ==> line[i] == ' '
  }

  /** Every line of `s` starts with `n` spaces. */
  predicate Indented(s: string, n: nat) {
    forall line :: line in Split(s, '\n') ==> LeadingSpaces(line, n)
  }

  /** The first line of `s` holds something other than white space. */
  predicate FirstLineHasContent(s: string) {
    exists j :: 0 <= j < |s| && !IsJsSpace(s[j]) && '\n' !in s[..j]
  }

  /** Under the corrected layout a non-empty container written at `indent` is a block whose
      every line starts with `indent` spaces, and any other value is written on one line. */
  lemma {:induction false} CorrectedLayout(v: Json, indent: nat)
    requires PlainKeys(v)
    ensures Block(v) ==> Indented(Render(v, indent, Corrected), indent)
    ensures Block(v) ==> FirstLineHasContent(Render(v, indent, Corrected))
    ensures !Block(v) ==> '\n' !in Render(v, indent, Corrected)
    decreases v, 2
  {
    match v
    case JNull =>
    case JBool(_) =>
    case JNum(n) =>
      var digits := NatToDecimal(if n < 0 then -n else n);
      assert '\n' !in digits;
    case JStr(_) =>
    case JArr(items) =>
      if |items| > 0 {
        var lines := ItemLines(items, indent, Corrected);
        ItemLinesLayout(items, indent);
        IndentedJoin(lines, indent);
        FirstLineJoin(lines);
      }
    case JObj(fields) =>
      var es := Entries(v);
      if |fields| > 0 {
        assert fields[0].0 in DistinctKeys(fields, |fields|);
        var lines := EntryLines(v, es, indent, Corrected);
        EntryLinesLayout(v, es, indent);
        IndentedJoin(lines, indent);
        FirstLineJoin(lines);
      } else {
        assert es == [];
      }
  }

  lemma ItemLinesLayout(items: seq<Json>, indent: nat)
    requires forall i :: 0 <= i < |items| ==> PlainKeys(items[i])
    ensures forall i :: 0 <= i < |items| ==>
      Indented(ItemLines(items, indent, Corrected)[i], indent) &&
      FirstLineHasContent(ItemLines(items, indent, Corrected)[i])
    decreases items, 1
  {
    forall i | 0 <= i < |items|
      ensures Indented(ItemLines(items, indent, Corrected)[i], indent)
      ensures FirstLineHasContent(ItemLines(items, indent, Corrected)[i])
    {
      ItemLinesAt(items, indent, i);
    }
  }

  lemma ItemLinesAt(items: seq<Json>, indent: nat, i: nat)
    requires forall i :: 0 <= i < |items| ==> PlainKeys(items[i])
    requires i < |items|
    ensures var line := ItemLines(items, indent, Corrected)[i];
      Indented(line, indent) && FirstLineHasContent(line)
    decreases items, 0
  {
    ItemLinesIndex(items, indent, Corrected, i);
    CorrectedLayout(items[i], indent + 2);
    ItemLineLayout(indent, Render(items[i], indent + 2, Corrected));
  }

  /** The `i`-th line of an array is the `i`-th item's. */
  lemma {:induction false} ItemLinesIndex(items: seq<Json>, indent: nat, layout: Layout, i: nat)
    requires i < |items|
    ensures ItemLines(items, indent, layout)[i] == ItemLine(indent, Render(items[i], indent + 2, layout))
  {
    if i > 0 {
      ItemLinesIndex(items[1..], indent, layout, i - 1);
    }
  }

  lemma {:induction false} EntryLinesLayout(v: Json, es: seq<(string, Json)>, indent: nat)
    requires v.JObj? && forall i :: 0 <= i < |es| ==> es[i] in v.fields
    requires PlainKeys(v)
    ensures forall i :: 0 <= i < |es| ==>
      Indented(EntryLines(v, es, indent, Corrected)[i], indent) &&
      FirstLineHasContent(EntryLines(v, es, indent, Corrected)[i])
    decreases v, 1, |es|
  {
    if |es| > 0 {
      var j :| 0 <= j < |v.fields| && v.fields[j] == es[0];
      var value := es[0].1;
      CorrectedLayout(value, indent + 2);
      EntryLineLayout(indent, es[0].0, value, Render(value, indent + 2, Corrected));
      EntryLinesLayout(v, es[1..], indent);
    }
  }

  /** An array item keeps the item's block indented under the dash. */
  lemma ItemLineLayout(indent: nat, item: string)
    requires '\n' !in item || (Indented(item, indent + 2) && FirstLineHasContent(item))
    ensures Indented(ItemLine(indent, item), indent) && FirstLineHasContent(ItemLine(indent, item))
  {
    var dash := Pad(indent) + "- ";
    assert dash[indent] == '-' && '\n' !in dash[..indent] && LeadingSpaces(dash, indent);
    var t := TrimStart(item);
    var m := |item| - |t|;
    assert ItemLine(indent, item) == dash + t;
    if '\n' in item {
      TrimStartInFirstLine(item);
      assert item == item[..m] + t;
      LaterLinesKept(item[..m], t, indent + 2);
    } else {
      assert '\n' !in t;
      SplitNoSep(t, '\n');
    }
    PrefixedLines(dash, t, indent);
    assert (dash + t)[..indent] == dash[..indent];
  }

  /** Removing leading white space from a text whose first line has content stays within
      that first line. */
  lemma TrimStartInFirstLine(s: string)
    requires FirstLineHasContent(s)
    ensures '\n' !in s[..|s| - |TrimStart(s)|]
  {
    var j :| 0 <= j < |s| && !IsJsSpace(s[j]) && '\n' !in s[..j];
    assert |s| - |TrimStart(s)| <= j;
  }

  /** The lines after the first of a suffix cut from within the first line. */
  lemma LaterLinesKept(pre: string, t: string, n: nat)
    requires '\n' !in pre && Indented(pre + t, n)
    ensures forall l :: l in Split(t, '\n')[1..] ==> LeadingSpaces(l, n)
  {
    SplitGlue(pre, t, '\n');
  }

  /** A single-line indented prefix in front of a text whose later lines are indented. */
  lemma PrefixedLines(p: string, t: string, n: nat)
    requires '\n' !in p && LeadingSpaces(p, n)
    requires forall l :: l in Split(t, '\n')[1..] ==> LeadingSpaces(l, n)
    ensures Indented(p + t, n)
  {
    SplitGlue(p, t, '\n');
    var pieces := Split(t, '\n');
    assert (p + pieces[0])[..n] == p[..n];
    forall l | l in Split(p + t, '\n')
      ensures LeadingSpaces(l, n)
    {
      if l != p + pieces[0] {
        assert l in pieces[1..];
      }
    }
  }

  /** An object entry keeps a block value indented under its key. */
  lemma EntryLineLayout(indent: nat, key: string, value: Json, rendered: string)
    requires '\n' !in key
    requires Block(value) ==> Indented(rendered, indent + 2)
    requires !Block(value) ==> '\n' !in rendered
    ensures Indented(EntryLine(indent, key, value, rendered, Corrected), indent)
    ensures FirstLineHasContent(EntryLine(indent, key, value, rendered, Corrected))
  {
    var head := Pad(indent) + key;
    var line := EntryLine(indent, key, value, rendered, Corrected);
    assert line[..|head|] == head && line[|head|] == ':';
    if Block(value) {
      assert line == (head + ":") + ['\n'] + rendered;
      assert '\n' !in head + ":";
      SplitPrefix(head + ":", rendered, '\n');
    } else {
      assert '\n' !in line;
      SplitNoSep(line, '\n');
    }
  }

  /** Lines joined by line breaks, each group indented, are indented. */
  lemma {:induction false} IndentedJoin(parts: seq<string>, n: nat)
    requires |parts| > 0 && forall i :: 0 <= i < |parts| ==> Indented(parts[i], n)
    ensures Indented(Join(parts, "\n"), n)
  {
    if |parts| > 1 {
      IndentedJoin(parts[1..], n);
      SplitAppend(parts[0], Join(parts[1..], "\n"), '\n');
    }
  }

  lemma FirstLineJoin(parts: seq<string>)
    requires |parts| > 0 && FirstLineHasContent(parts[0])
    ensures FirstLineHasContent(Join(parts, "\n"))
  {
    var s := Join(parts, "\n");
    assert s[..|parts[0]|] == parts[0];
    var j :| 0 <= j < |parts[0]| && !IsJsSpace(parts[0][j]) && '\n' !in parts[0][..j];
    assert s[j] == parts[0][j] && s[..j] == parts[0][..j];
  }

  /** An empty container is sent below its key and lands at the left margin, out of the
      block it belongs to; the corrected layout keeps it on the key's line. */
  lemma OriginalMisplacesEmpty()
    ensures ToYaml(JObj([("k", JArr([]))]), 2) == "  k:\n[]"
    ensures !Indented(ToYaml(JObj([("k", JArr([]))]), 2), 2)
    ensures Render(JObj([("k", JArr([]))]), 2, Corrected) == "  k: []"
  {
    EmptyBelowKey();
    EmptyOnKeyLine();
    var out := ToYaml(JObj([("k", JArr([]))]), 2);
    assert out == "  k:" + ['\n'] + "[]";
    SplitPrefix("  k:", "[]", '\n');
    SplitNoSep("[]", '\n');
    assert "[]" in Split(out, '\n');
  }

  lemma EmptyBelowKey()
    ensures ToYaml(JObj([("k", JArr([]))]), 2) == "  k:\n[]"
  {
    OneEntry("k", JArr([]), 2, Original);
    StartsWithChar("[]", '[');
    assert Pad(2) + "k" + ":\n" + "[]" == "  k:\n[]";
  }

  lemma EmptyOnKeyLine()
    ensures Render(JObj([("k", JArr([]))]), 2, Corrected) == "  k: []"
  {
    OneEntry("k", JArr([]), 2, Corrected);
    assert Pad(2) + "k" + ": " + "[]" == "  k: []";
  }

  /** A one-entry object fits on one line, so it stays on its key's line, giving two keys
      on a line; the corrected layout puts it on its own line under the key. */
  lemma OriginalMisplacesBlock()
    ensures ToYaml(JObj([("a", JObj([("b", JNum(1))]))]), 0) == "a:   b: 1"
    ensures Render(JObj([("a", JObj([("b", JNum(1))]))]), 0, Corrected) == "a:\n  b: 1"
  {
    BlockOnKeyLine();
    BlockBelowKey();
  }

  lemma BlockOnKeyLine()
    ensures ToYaml(JObj([("a", JObj([("b", JNum(1))]))]), 0) == "a:   b: 1"
  {
    InnerEntry(Original);
    InnerStaysOnKeyLine();
    KeyLineAtTop("a", JObj([("b", JNum(1))]), "  b: 1");
    assert "a" + ": " + "  b: 1" == "a:   b: 1";
  }

  /** A one-entry object at the top level whose value stays on the key's line. */
  lemma KeyLineAtTop(key: string, value: Json, text: string)
    requires Render(value, 2, Original) == text && !BelowKey(value, text, Original)
    ensures ToYaml(JObj([(key, value)]), 0) == key + ": " + text
  {
    OneEntry(key, value, 0, Original);
    LineOnKey(key, value, text);
  }

  lemma LineOnKey(key: string, value: Json, text: string)
    requires !BelowKey(value, text, Original)
    ensures EntryLine(0, key, value, text, Original) == key + ": " + text
  {
    assert Pad(0) + key == key;
  }

  /** The inner entry's text starts with a space and holds no line break. */
  lemma InnerStaysOnKeyLine()
    ensures !BelowKey(JObj([("b", JNum(1))]), "  b: 1", Original)
  {
    var inner := "  b: 1";
    StartsWithChar(inner, '{');
    StartsWithChar(inner, '[');
    assert forall i :: 0 <= i < |inner| ==> inner[i] != '\n';
  }

  lemma BlockBelowKey()
    ensures Render(JObj([("a", JObj([("b", JNum(1))]))]), 0, Corrected) == "a:\n  b: 1"
  {
    InnerEntry(Corrected);
    OneEntry("a", JObj([("b", JNum(1))]), 0, Corrected);
    assert Pad(0) + "a" + ":\n" + "  b: 1" == "a:\n  b: 1";
  }

  lemma InnerEntry(layout: Layout)
    ensures Render(JObj([("b", JNum(1))]), 2, layout) == "  b: 1"
  {
    assert Render(JNum(1), 4, layout) == "1" by {
      assert NatToDecimal(1) == [DecimalDigit(1)];
    }
    OneEntry("b", JNum(1), 2, layout);
    StartsWithChar("1", '{');
    StartsWithChar("1", '[');
    assert Pad(2) + "b" + ": " + "1" == "  b: 1";
  }

  lemma StartsWithChar(s: string, c: char)
    ensures StartsWith(s, [c]) <==> |s| > 0 && s[0] == c
  {
    if |s| > 0 {
      assert s[..1] == [s[0]];
    }
  }

  /** An object with one entry is that entry's line group. */
  lemma OneEntry(key: string, value: Json, indent: nat, layout: Layout)
    ensures Render(JObj([(key, value)]), indent, layout)
      == EntryLine(indent, key, value, Render(value, indent + 2, layout), layout)
  {
    var v := JObj([(key, value)]);
    assert DistinctKeys(v.fields, 0) == [];
    assert Entries(v) == v.fields;
    assert EntryLines(v, v.fields, indent, layout)
      == [EntryLine(indent, key, value, Render(value, indent + 2, layout), layout)];
  }
}
