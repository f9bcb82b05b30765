/**
  The server side of an edit request (api/edit.js): recovering the edit payload from the
  language model's reply, normalising the edit list, the absolute selector builder, the
  class + ordinal heuristic and the fallback chain that decides the final edits.
  `JSON.parse` is a parameter, a partial function from text to a value; the static
  document is a `Dom.Tree`.
*/
module EditApi {
  import opened Wrappers
  import opened Text
  import opened JsValue
  import opened Dom
  import opened TagElements

  // ---------------------------------------------------------------------------------------
  // tryParseEditPayload

  /** `JSON.parse`: the value a text denotes, `None` where it throws. */
  type Parser = string -> Option<Json>

  predicate IsDroppedUnit(c: char) {
    c == '\U{FEFF}' || c == '\U{200B}'
  }

  /** Carriage returns become line feeds; byte order marks and zero-width spaces go. */
  function NormalizeContent(s: string): (r: string)
    ensures |r| <= |s|
    ensures forall i :: 0 <= i < |r| ==> r[i] != '\r' && !IsDroppedUnit(r[i])
  {
    if |s| == 0 then ""
    else (if s[0] == '\r' then "\n" else if IsDroppedUnit(s[0]) then "" else [s[0]])
         + NormalizeContent(s[1..])
  }

  /** Text with none of those units is left as it is, so normalising twice changes nothing. */
  lemma {:induction false} NormalizeContentClean(s: string)
    requires forall i :: 0 <= i < |s| ==> s[i] != '\r' && !IsDroppedUnit(s[i])
    ensures NormalizeContent(s) == s
  {
    if |s| > 0 {
      NormalizeContentClean(s[1..]);
      assert [s[0]] + s[1..] == s;
    }
  }

  lemma NormalizeContentIdempotent(s: string)
    ensures NormalizeContent(NormalizeContent(s)) == NormalizeContent(s)
  {
    NormalizeContentClean(NormalizeContent(s));
  }

  /** The end of the run of white space that starts at `i` (what `\s*` consumes). */
  function SpaceEnd(s: string, i: nat): (j: nat)
    requires i <= |s|
    ensures i <= j <= |s| && (j == |s| || !IsJsSpace(s[j]))
    ensures forall k :: i <= k < j ==> IsJsSpace(s[k])
    decreases |s| - i
  {
    if i < |s| && IsJsSpace(s[i]) then SpaceEnd(s, i + 1) else i
  }

  /** Where ```` /```(?:json)?\s*([\s\S]*?)```/i ```` finds its capture: after the first
      fence, its optional `json` tag (in any case) and the white space after it, up to the
      next fence. A first fence that is never closed leaves no later fence closed either,
      so there is then no match at all. */
  function FenceSpan(s: string): (r: Option<(nat, nat)>)
    ensures r.Some? ==> r.value.0 <= r.value.1 <= |s|
  {
    match IndexOf(s, "```")
    case None => None
    case Some(open) =>
      var tagged := open + 7 <= |s| && AsciiLower(s[open + 3..open + 7]) == "json";
      var body := SpaceEnd(s, if tagged then open + 7 else open + 3);
      match IndexOf(s[body..], "```")
      case None => None
      case Some(close) => Some((body, body + close))
  }

  /** `{ raw: content }`, what is returned when no reading of the reply parses. */
  function RawPayload(content: string): Json {
    JObj([("raw", JStr(content))])
  }

  /** `tryParseEditPayload`: the whole normalised reply, else the first fenced block, else
      the text from the first `{` to the last `}`, else the raw object. Whatever it
      returns other than the raw object is the parse of one piece of the normalised
      reply. */
  function TryParseEditPayload(parse: Parser, content: string): (r: Json)
    ensures var c := NormalizeContent(content);
      r == RawPayload(c) || exists i, j :: 0 <= i <= j <= |c| && parse(c[i..j]) == Some(r)
  {
    var c := NormalizeContent(content);
    if parse(c).Some? then
      assert c[0..|c|] == c;
      parse(c).value
    else
      TryFence(parse, c)
  }

  /** The second and third readings. */
  function TryFence(parse: Parser, c: string): (r: Json)
    ensures r == RawPayload(c) || exists i, j :: 0 <= i <= j <= |c| && parse(c[i..j]) == Some(r)
  {
    var fence := FenceSpan(c);
    if fence.Some? && parse(c[fence.value.0..fence.value.1]).Some? then
      parse(c[fence.value.0..fence.value.1]).value
    else
      TryBraces(parse, c)
  }

  /** The third reading: from the first `{` to the last `}`, when that `}` comes later. */
  function TryBraces(parse: Parser, c: string): (r: Json)
    ensures r == RawPayload(c) || exists i, j :: 0 <= i <= j <= |c| && parse(c[i..j]) == Some(r)
  {
    var start := IndexOfChar(c, '{');
    var end := LastIndexOfChar(c, '}');
    if start.Some? && end.Some? && end.value > start.value
       && parse(c[start.value..end.value + 1]).Some?
    then parse(c[start.value..end.value + 1]).value
    else RawPayload(c)
  }

  predicate Clean(s: string) {
    forall i :: 0 <= i < |s| ==> s[i] != '\r' && !IsDroppedUnit(s[i])
  }

  /** In text without a backtick, the first fence is the one appended after it. */
  lemma {:induction false} FenceAfterPlainText(p: string)
    requires '`' !in p
    ensures IndexOf(p + "```", "```") == Some(|p|)
  {
    if |p| > 0 {
      assert (p + "```")[0] == p[0];
      assert (p + "```")[1..] == p[1..] + "```";
      assert '`' !in p[1..];
      FenceAfterPlainText(p[1..]);
    }
  }

  /** Text without a backtick has no fence. */
  lemma {:induction false} NoFenceWithoutBacktick(s: string)
    requires '`' !in s
    ensures IndexOf(s, "```") == None
  {
    if |s| > 0 {
      assert s[0] != '`';
      assert '`' !in s[1..];
      NoFenceWithoutBacktick(s[1..]);
    }
  }

  lemma FirstCharAt(s: string, c: char, k: nat)
    requires k < |s| && s[k] == c && c !in s[..k]
    ensures IndexOfChar(s, c) == Some(k)
  {
  }

  lemma LastCharAt(s: string, c: char, k: nat)
    requires k < |s| && s[k] == c && c !in s[k + 1..]
    ensures LastIndexOfChar(s, c) == Some(k)
  {
  }

  /** A reply that is one fenced `json` block around a payload is read as that payload,
      provided the reply as a whole is not itself valid JSON. */
  lemma FencedPayload(parse: Parser, p: string, v: Json)
    requires '`' !in p && Clean(p)
    requires p == "" || !IsJsSpace(p[0])
    requires parse(p) == Some(v)
    requires parse("```json\n" + p + "```") == None
    ensures TryParseEditPayload(parse, "```json\n" + p + "```") == v
  {
    var w := "```json\n" + p + "```";
    assert Clean(w) by {
      forall i | 0 <= i < |w| ensures w[i] != '\r' && !IsDroppedUnit(w[i]) {
        if 8 <= i < 8 + |p| { assert w[i] == p[i - 8]; }
      }
    }
    NormalizeContentClean(w);
    FencedSpan(p);
  }

  lemma FencedSpan(p: string)
    requires '`' !in p
    requires p == "" || !IsJsSpace(p[0])
    ensures var w := "```json\n" + p + "```";
      FenceSpan(w) == Some((8, 8 + |p|)) && w[8..8 + |p|] == p
  {
    var w := "```json\n" + p + "```";
    assert w[..3] == "```";
    assert IndexOf(w, "```") == Some(0);
    assert w[3..7] == "json" by {
      assert w[3] == 'j' && w[4] == 's' && w[5] == 'o' && w[6] == 'n';
    }
    JsonTagLower(w[3..7]);
    assert SpaceEnd(w, 8) == 8;
    assert SpaceEnd(w, 7) == 8;
    assert w[8..] == p + "```";
    FenceAfterPlainText(p);
    assert IndexOf(w[8..], "```") == Some(|p|);
    assert w[8..8 + |p|] == p;
  }

  lemma JsonTagLower(s: string)
    requires s == "json"
    ensures AsciiLower(s) == "json"
  {
    assert s[1..][1..][1..][1..] == [];
  }

  /** A reply that wraps one braced payload in prose free of braces and backticks is read
      as that payload, provided the reply as a whole is not itself valid JSON. */
  lemma BracedPayload(parse: Parser, pre: string, p: string, post: string, v: Json)
    requires '{' !in pre && '}' !in post
    requires |p| >= 2 && p[0] == '{' && p[|p| - 1] == '}'
    requires '`' !in pre + p + post && Clean(pre + p + post)
    requires parse(p) == Some(v)
    requires parse(pre + p + post) == None
    ensures TryParseEditPayload(parse, pre + p + post) == v
  {
    var w := pre + p + post;
    UnfencedReading(parse, w);
    BracedSpan(pre, p, post);
    BracesRead(parse, w, |pre|, |pre| + |p| - 1);
    NormalizeContentClean(w);
    UnparsedReading(parse, w);
  }

  /** A normalised reply that does not parse as a whole goes on to the second reading. */
  lemma UnparsedReading(parse: Parser, content: string)
    requires parse(NormalizeContent(content)) == None
    ensures TryParseEditPayload(parse, content) == TryFence(parse, NormalizeContent(content))
  {
  }

  /** Text without a backtick goes straight to the third reading. */
  lemma UnfencedReading(parse: Parser, c: string)
    requires '`' !in c
    ensures TryFence(parse, c) == TryBraces(parse, c)
  {
    NoFenceWithoutBacktick(c);
  }

  /** With a `{` first at `i` and a `}` last at `j > i`, the third reading parses `c[i..j]`. */
  lemma BracesRead(parse: Parser, c: string, i: nat, j: nat)
    requires IndexOfChar(c, '{') == Some(i) && LastIndexOfChar(c, '}') == Some(j) && j > i
    ensures TryBraces(parse, c) == if parse(c[i..j + 1]).Some? then parse(c[i..j + 1]).value else RawPayload(c)
  {
  }

  lemma BracedSpan(pre: string, p: string, post: string)
    requires '{' !in pre && '}' !in post
    requires |p| >= 2 && p[0] == '{' && p[|p| - 1] == '}'
    ensures var w := pre + p + post;
      && IndexOfChar(w, '{') == Some(|pre|)
      && LastIndexOfChar(w, '}') == Some(|pre| + |p| - 1)
      && w[|pre|..|pre| + |p|] == p
  {
    var w := pre + p + post;
    assert w[..|pre|] == pre;
    FirstCharAt(w, '{', |pre|);
    assert w[|pre| + |p|..] == post;
    LastCharAt(w, '}', |pre| + |p| - 1);
    assert w[|pre|..|pre| + |p|] == p;
  }

  // ---------------------------------------------------------------------------------------
  // normalizeEdits

  /** The list the reply's edits are read from: the reply itself when it is an array, else
      its `edits` array, else its `operations` array, else none. */
  function EditList(obj: Json): seq<Json> {
    if obj.JArr? then obj.items
    else
      var edits := Get(obj, "edits");
      var operations := Get(obj, "operations");
      if edits.Some? && edits.value.JArr? then edits.value.items
      else if operations.Some? && operations.value.JArr? then operations.value.items
      else []
  }

  /** The precedence of the three sources: an array wins, then `edits`, then `operations`;
      a reply with none of them has no edits. */
  lemma EditListSources(obj: Json)
    ensures obj.JArr? ==> EditList(obj) == obj.items
    ensures !obj.JArr? && Get(obj, "edits").Some? && Get(obj, "edits").value.JArr? ==>
      EditList(obj) == Get(obj, "edits").value.items
    ensures !obj.JArr? && !(Get(obj, "edits").Some? && Get(obj, "edits").value.JArr?) ==>
      EditList(obj) == (if Get(obj, "operations").Some? && Get(obj, "operations").value.JArr?
                        then Get(obj, "operations").value.items else [])
    ensures !obj.JArr? && !obj.JObj? ==> EditList(obj) == []
  {
  }

  /** The field names of every normalised entry, in order. */
  const EditFields: seq<string> := ["section", "path", "op", "attr", "prop", "value"]

  /** `e.path ?? e.selector ?? null` */
  function PathOf(e: Json): Json {
    Coalesce(Get(e, "path"), OrNull(Get(e, "selector")))
  }

  /** `e.op ?? e.operation ?? null` */
  function OpOf(e: Json): Json {
    Coalesce(Get(e, "op"), OrNull(Get(e, "operation")))
  }

  /** The canonical record one entry is mapped to. */
  function Canonical(e: Json): (r: Json)
    ensures r.JObj? && |r.fields| == |EditFields|
    ensures forall k :: 0 <= k < |EditFields| ==> r.fields[k].0 == EditFields[k]
  {
    JObj([("section", OrNull(Get(e, "section"))), ("path", PathOf(e)), ("op", OpOf(e)),
          ("attr", OrNull(Get(e, "attr"))), ("prop", OrNull(Get(e, "prop"))),
          ("value", OrNull(Get(e, "value")))])
  }

  /** `path` falls back to `selector` and `op` to `operation`; a field missing or null in
      the entry (and in its fallback) is null in the record. */
  lemma CanonicalFallbacks(e: Json)
    ensures Get(e, "path").Some? && Get(e, "path").value != JNull ==> PathOf(e) == Get(e, "path").value
    ensures (Get(e, "path").None? || Get(e, "path").value == JNull) ==> PathOf(e) == OrNull(Get(e, "selector"))
    ensures Get(e, "op").Some? && Get(e, "op").value != JNull ==> OpOf(e) == Get(e, "op").value
    ensures (Get(e, "op").None? || Get(e, "op").value == JNull) ==> OpOf(e) == OrNull(Get(e, "operation"))
    ensures !e.JObj? ==> Canonical(e) == JObj([("section", JNull), ("path", JNull), ("op", JNull),
                                              ("attr", JNull), ("prop", JNull), ("value", JNull)])
  {
  }

  /** `e.op && (e.path || e.section)`, read off a canonical record. */
  predicate Usable(r: Json) {
    Truthy(OrNull(Get(r, "op"))) && (Truthy(OrNull(Get(r, "path"))) || Truthy(OrNull(Get(r, "section"))))
  }

  lemma LastFieldSnoc(fields: seq<(string, Json)>, f: (string, Json), key: string)
    ensures LastField(fields + [f], key) == if f.0 == key then Some(f.1) else LastField(fields, key)
  {
    assert (fields + [f])[..|fields|] == fields;
  }

  /** The fields of a canonical record read back as the values they were built from. */
  lemma CanonicalGet(e: Json)
    ensures Get(Canonical(e), "section") == Some(OrNull(Get(e, "section")))
    ensures Get(Canonical(e), "path") == Some(PathOf(e))
    ensures Get(Canonical(e), "op") == Some(OpOf(e))
  {
    var f := Canonical(e).fields;
    var f1, f2, f3, f4, f5 := f[..1], f[..2], f[..3], f[..4], f[..5];
    assert f == f5 + [f[5]] && f5 == f4 + [f[4]] && f4 == f3 + [f[3]];
    assert f3 == f2 + [f[2]] && f2 == f1 + [f[1]] && f1 == [] + [f[0]];
    forall key | key in {"section", "path", "op"}
      ensures LastField(f, key) == LastField(f3, key)
    {
      LastFieldSnoc(f5, f[5], key);
      LastFieldSnoc(f4, f[4], key);
      LastFieldSnoc(f3, f[3], key);
    }
    LastFieldSnoc(f2, f[2], "op");
    LastFieldSnoc(f2, f[2], "path");
    LastFieldSnoc(f1, f[1], "path");
    LastFieldSnoc(f2, f[2], "section");
    LastFieldSnoc(f1, f[1], "section");
    LastFieldSnoc([], f[0], "section");
  }

  lemma CanonicalUsable(e: Json)
    ensures Usable(Canonical(e)) <==>
      Truthy(OpOf(e)) && (Truthy(PathOf(e)) || Truthy(OrNull(Get(e, "section"))))
  {
    CanonicalGet(e);
  }

  /** The filter of `normalizeEdits`: the usable records, in their order. */
  function KeepUsable(xs: seq<Json>): (r: seq<Json>)
    ensures |r| <= |xs|
    ensures forall x :: x in r <==> x in xs && Usable(x)
  {
    if |xs| == 0 then []
    else (if Usable(xs[0]) then [xs[0]] else []) + KeepUsable(xs[1..])
  }

  /** Filtering distributes over concatenation, so the kept records stay in input order. */
  lemma {:induction false} KeepUsableAppend(xs: seq<Json>, ys: seq<Json>)
    ensures KeepUsable(xs + ys) == KeepUsable(xs) + KeepUsable(ys)
  {
    if |xs| > 0 {
      assert (xs + ys)[1..] == xs[1..] + ys;
      KeepUsableAppend(xs[1..], ys);
    } else {
      assert xs + ys == ys;
    }
  }

  /** The records of the `map` step, one per entry. */
  function Records(list: seq<Json>): (r: seq<Json>)
    ensures |r| == |list| && forall i :: 0 <= i < |list| ==> r[i] == Canonical(list[i])
  {
    seq(|list|, i requires 0 <= i < |list| => Canonical(list[i]))
  }

  /** `normalizeEdits`: every entry mapped to its canonical record, then the unusable
      records dropped. A null entry makes the property reads throw. */
  function NormalizeEdits(obj: Json): (r: Result<seq<Json>, string>)
    ensures r.Ok? <==> JNull !in EditList(obj)
    ensures r.Ok? ==> |r.value| <= |EditList(obj)|
    ensures r.Ok? ==> forall x :: x in r.value <==> x in Records(EditList(obj)) && Usable(x)
  {
    var list := EditList(obj);
    if JNull in list then Err("TypeError: Cannot read properties of null")
    else Ok(KeepUsable(Records(list)))
  }

  // ---------------------------------------------------------------------------------------
  // buildAbsoluteSelector

  /** The fragments the climb of `buildAbsoluteSelector` pushes, nearest first: the climb
      runs over nodes of type "tag", stops at the first one with an id (written unescaped)
      and otherwise moves to the parent, for at most `fuel` steps. Reaching the document
      root ends it, since the root is not of type "tag". */
  function AbsoluteParts(t: Tree, cur: Option<NodeId>, fuel: nat): seq<string>
    requires WellFormed(t)
    requires cur.Some? ==> cur.value < |t|
    decreases fuel
  {
    if cur.None? || t[cur.value].nodeType != Tag || fuel == 0 then []
    else
      var n := t[cur.value];
      if IdOf(n) != "" then ["#" + IdOf(n)]
      else [TypeFragment(n.name, NthOfType(t, cur.value))] + AbsoluteParts(t, n.parent, fuel - 1)
  }

  /** The selector `buildAbsoluteSelector` returns for `el`. */
  function AbsoluteSelector(t: Tree, el: NodeId): string
    requires WellFormed(t) && el < |t|
  {
    Join(Reverse(AbsoluteParts(t, Some(el), ClimbGuard)), " > ")
  }

  /** An element with an id is addressed by that id alone; a node that is not of type
      "tag" gets the empty selector. */
  lemma AbsoluteSelectorBasics(t: Tree, el: NodeId)
    requires WellFormed(t) && el < |t|
    ensures t[el].nodeType != Tag ==> AbsoluteSelector(t, el) == ""
    ensures t[el].nodeType == Tag && IdOf(t[el]) != "" ==> AbsoluteSelector(t, el) == "#" + IdOf(t[el])
    ensures t[el].nodeType == Tag ==> AbsoluteSelector(t, el) != ""
  {
    var parts := AbsoluteParts(t, Some(el), ClimbGuard);
    JoinReversedEndsWithFirst(parts);
  }

  /** The climb of the absolute builder, one step unfolded. */
  lemma AbsolutePartsUnfold(t: Tree, cur: NodeId, fuel: nat)
    requires WellFormed(t) && cur < |t| && fuel > 0 && t[cur].nodeType == Tag
    ensures IdOf(t[cur]) != "" ==> AbsoluteParts(t, Some(cur), fuel) == ["#" + IdOf(t[cur])]
    ensures IdOf(t[cur]) == "" ==>
      AbsoluteParts(t, Some(cur), fuel) ==
      [TypeFragment(t[cur].name, NthOfType(t, cur))] + AbsoluteParts(t, t[cur].parent, fuel - 1)
  {
  }

  lemma AppendStep(parts: seq<string>, part: string, rest: seq<string>, whole: seq<string>)
    requires parts + ([part] + rest) == whole
    ensures (parts + [part]) + rest == whole
  {
  }

  /** `buildAbsoluteSelector`: the guarded climb pushing fragments, then the reversed
      fragments joined by " > ". */
  method BuildAbsoluteSelector(t: Tree, el: NodeId) returns (selector: string)
    requires WellFormed(t) && el < |t|
    ensures selector == AbsoluteSelector(t, el)
  {
    var parts: seq<string> := [];
    ghost var whole := AbsoluteParts(t, Some(el), ClimbGuard);
    var cur: Option<NodeId> := Some(el);
    var guard := 0;
    while cur.Some? && t[cur.value].nodeType == Tag && guard < ClimbGuard
      invariant 0 <= guard <= ClimbGuard
      invariant cur.Some? ==> cur.value < |t|
      invariant parts + AbsoluteParts(t, cur, ClimbGuard - guard) == whole
      decreases ClimbGuard - guard
    {
      var n := t[cur.value];
      AbsolutePartsUnfold(t, cur.value, ClimbGuard - guard);
      guard := guard + 1;
      var id := IdOf(n);
      if id != "" {
        AppendStep(parts, "#" + id, [], whole);
        parts := parts + ["#" + id];
        break;
      }
      var index := IndexOfType(t, cur.value);
      var fragment := TypeFragment(n.name, index);
      AppendStep(parts, fragment, AbsoluteParts(t, n.parent, ClimbGuard - guard), whole);
      parts := parts + [fragment];
      cur := n.parent;
      if cur.Some? && t[cur.value].nodeType == Root {
        break;
      }
    }
    assert parts + [] == parts;
    parts := Reverse(parts);
    selector := Join(parts, " > ");
  }

  /** The climb from `cur` towards `root` meets only elements of type "tag" with a name,
      and every id on it reads as itself once escaped; `root` itself, if reached, is not of
      type "tag". */
  predicate PlainClimb(t: Tree, root: NodeId, cur: Option<NodeId>, fuel: nat)
    requires WellFormed(t)
    requires cur.Some? ==> cur.value < |t|
    decreases fuel
  {
    cur.None? || fuel == 0 ||
    (cur.value == root && t[root].nodeType != Tag) ||
    (cur.value != root && t[cur.value].nodeType == Tag && t[cur.value].name != "" &&
     (IdOf(t[cur.value]) != "" ==> PlainIdent(IdOf(t[cur.value]))) &&
     (IdOf(t[cur.value]) == "" ==> PlainClimb(t, root, t[cur.value].parent, fuel - 1)))
  }

  lemma {:induction false} PartsAgree(t: Tree, root: NodeId, cur: Option<NodeId>, fuel: nat)
    requires WellFormed(t)
    requires cur.Some? ==> cur.value < |t|
    requires PlainClimb(t, root, cur, fuel)
    ensures AbsoluteParts(t, cur, fuel) == Rendered(ClimbSteps(t, root, cur, fuel))
    decreases fuel
  {
    if cur.Some? && fuel > 0 && cur.value != root {
      var c := cur.value;
      ClimbStepsUnfold(t, root, c, fuel);
      AbsolutePartsUnfold(t, c, fuel);
      if IdOf(t[c]) != "" {
        PlainIdentUnchanged(IdOf(t[c]));
        RenderedCons(ById(IdOf(t[c])), []);
        assert [ById(IdOf(t[c]))] + [] == [ById(IdOf(t[c]))];
      } else {
        PartsAgree(t, root, t[c].parent, fuel - 1);
        RenderedCons(ByType(t[c].name, NthOfType(t, c)), ClimbSteps(t, root, t[c].parent, fuel - 1));
      }
    }
  }

  /** The two path builders are forks of one climb: on a climb whose ids need no escaping
      and which ends at the document root, the absolute selector equals the path relative
      to the root. */
  lemma ForksAgree(t: Tree, root: NodeId, el: NodeId)
    requires WellFormed(t) && el < |t|
    requires PlainClimb(t, root, Some(el), ClimbGuard)
    ensures AbsoluteSelector(t, el) == RelativePath(t, root, el)
  {
    PartsAgree(t, root, Some(el), ClimbGuard);
  }

  // ---------------------------------------------------------------------------------------
  // applyClassOrdinalHeuristic

  /** The two patterns the heuristic reads the instruction with:
      `/([0-9０-９]+)\s*(?:つ目|番目|個目|枚目)/` and `/([A-Za-z0-9_-]+)\s*(?:クラス|class)/i`. */
  datatype Pattern = Ordinal | ClassName

  /** `[0-9０-９]` */
  predicate IsOrdinalDigit(c: char) {
    IsAsciiDigit(c) || ('０' <= c <= '９')
  }

  /** The characters of the captured run; `[A-Za-z0-9_-]` is the same set with or without
      the `i` flag. */
  predicate InRun(p: Pattern, c: char) {
    match p
    case Ordinal => IsOrdinalDigit(c)
    case ClassName => IsSafeUnit(c)
  }

  /** The marker that must follow the run once the white space after it is skipped. */
  predicate MarkerAt(p: Pattern, s: string, k: nat)
    requires k <= |s|
  {
    match p
    case Ordinal =>
      StartsWith(s[k..], "つ目") || StartsWith(s[k..], "番目") ||
      StartsWith(s[k..], "個目") || StartsWith(s[k..], "枚目")
    case ClassName =>
      StartsWith(s[k..], "クラス") || (k + 5 <= |s| && AsciiLower(s[k..k + 5]) == "class")
  }

  /** The marker follows `k` once the white space after `k` is skipped (`\s*` then the
      marker). */
  predicate MarkerAfter(p: Pattern, s: string, k: nat)
    requires k <= |s|
  {
    MarkerAt(p, s, SpaceEnd(s, k))
  }

  /** The end of the longest run of pattern characters starting at `i`. */
  function RunEnd(p: Pattern, s: string, i: nat): (j: nat)
    requires i <= |s|
    ensures i <= j <= |s| && (j == |s| || !InRun(p, s[j]))
    ensures forall k :: i <= k < j ==> InRun(p, s[k])
    decreases |s| - i
  {
    if i < |s| && InRun(p, s[i]) then RunEnd(p, s, i + 1) else i
  }

  /** The greedy run backtracks: the capture from `i` ends at the last `j` not past `end`
      after which the marker follows. */
  function CaptureEnd(p: Pattern, s: string, i: nat, end: nat): (r: Option<nat>)
    requires i <= end <= |s|
    ensures r.Some? ==> i < r.value <= end && MarkerAfter(p, s, r.value)
    ensures r.Some? ==> NoMarkerAfter(p, s, r.value, end)
    ensures r.None? ==> NoMarkerAfter(p, s, i, end)
    decreases end - i
  {
    if end == i then None
    else if MarkerAfter(p, s, end) then
      Some(end)
    else
      var r := CaptureEnd(p, s, i, end - 1);
      NoMarkerAfterExtend(p, s, if r.Some? then r.value else i, end);
      r
  }

  /** No marker follows any position in `(lo, hi]`. */
  predicate NoMarkerAfter(p: Pattern, s: string, lo: nat, hi: nat)
    requires hi <= |s|
  {
    forall k :: lo < k <= hi ==> !MarkerAfter(p, s, k)
  }

  lemma NoMarkerAfterExtend(p: Pattern, s: string, lo: nat, hi: nat)
    requires lo < hi <= |s|
    requires NoMarkerAfter(p, s, lo, hi - 1) && !MarkerAfter(p, s, hi)
    ensures NoMarkerAfter(p, s, lo, hi)
  {
  }

  /** The leftmost match at or after `i`, as the bounds of its capture. */
  function FirstCapture(p: Pattern, s: string, i: nat): (r: Option<(nat, nat)>)
    requires i <= |s|
    ensures r.Some? ==> i <= r.value.0 < r.value.1 <= |s|
    ensures r.Some? ==> forall k :: r.value.0 <= k < r.value.1 ==> InRun(p, s[k])
    ensures r.Some? ==> MarkerAfter(p, s, r.value.1)
    ensures r.Some? ==> forall k :: i <= k < r.value.0 ==> CaptureEnd(p, s, k, RunEnd(p, s, k)).None?
    ensures r.None? ==> forall k :: i <= k <= |s| ==> CaptureEnd(p, s, k, RunEnd(p, s, k)).None?
    decreases |s| - i
  {
    var e := CaptureEnd(p, s, i, RunEnd(p, s, i));
    if e.Some? then Some((i, e.value))
    else if i == |s| then None
    else FirstCapture(p, s, i + 1)
  }

  /** `text.match(pattern)?.[1]` */
  function Capture(p: Pattern, s: string): (r: Option<string>)
    ensures r.Some? ==> |r.value| >= 1 && forall k :: 0 <= k < |r.value| ==> InRun(p, r.value[k])
  {
    match FirstCapture(p, s, 0)
    case None => None
    case Some((a, b)) => Some(s[a..b])
  }

  /** A marker never starts with a digit, so the ordinal capture never stops inside a run
      of digits: from any start it is the whole run or nothing. */
  lemma OrdinalCaptureIsWholeRun(s: string, i: nat)
    requires i <= |s|
    ensures var e := CaptureEnd(Ordinal, s, i, RunEnd(Ordinal, s, i));
      e.Some? ==> e.value == RunEnd(Ordinal, s, i)
  {
    var end := RunEnd(Ordinal, s, i);
    var e := CaptureEnd(Ordinal, s, i, end);
    if e.Some? && e.value < end {
      DigitIsNoMarker(s, e.value);
    }
  }

  lemma DigitIsNoMarker(s: string, k: nat)
    requires k < |s| && IsOrdinalDigit(s[k])
    ensures !MarkerAfter(Ordinal, s, k)
  {
    assert SpaceEnd(s, k) == k;
    assert s[k..][0] == s[k];
  }

  /** The value of a half- or full-width digit. */
  function OrdinalDigitValue(c: char): (d: nat)
    requires IsOrdinalDigit(c)
    ensures d < 10
  {
    if IsAsciiDigit(c) then c as int - '0' as int else c as int - '０' as int
  }

  /** The digit conversion the heuristic evidently intends: a full-width digit becomes the
      half-width digit of the same value. */
  function HalfWidth(c: char): (r: char)
    requires IsOrdinalDigit(c)
    ensures IsAsciiDigit(r) && OrdinalDigitValue(r) == OrdinalDigitValue(c)
  {
    if IsAsciiDigit(c) then c else DecimalDigit(OrdinalDigitValue(c))
  }

  function HalfWidthDigits(s: string): (r: string)
    requires forall k :: 0 <= k < |s| ==> IsOrdinalDigit(s[k])
    ensures |r| == |s| && forall k :: 0 <= k < |s| ==> r[k] == HalfWidth(s[k])
  {
    if |s| == 0 then "" else [HalfWidth(s[0])] + HalfWidthDigits(s[1..])
  }

  /** `parseInt(s, 10)` of a string of half-width digits. */
  function DecimalValue(s: string): nat
    requires forall k :: 0 <= k < |s| ==> IsAsciiDigit(s[k])
  {
    if |s| == 0 then 0
    else
      assert IsAsciiDigit(s[|s| - 1]);
      DecimalValue(s[..|s| - 1]) * 10 + (s[|s| - 1] as int - '0' as int)
  }

  /** The number a run of digits of either width denotes. */
  function OrdinalValue(s: string): nat
    requires forall k :: 0 <= k < |s| ==> IsOrdinalDigit(s[k])
  {
    if |s| == 0 then 0
    else OrdinalValue(s[..|s| - 1]) * 10 + OrdinalDigitValue(s[|s| - 1])
  }

  /** The corrected conversion: full-width digits count as the half-width digits of the same
      value, so the parsed run is the number the mixed-width run denotes. */
  lemma {:induction false} HalfWidthValue(s: string)
    requires forall k :: 0 <= k < |s| ==> IsOrdinalDigit(s[k])
    ensures DecimalValue(HalfWidthDigits(s)) == OrdinalValue(s)
  {
    if |s| > 0 {
      var h := HalfWidthDigits(s);
      var m := |s| - 1;
      assert h[..m] == HalfWidthDigits(s[..m]);
      HalfWidthValue(s[..m]);
    }
  }

  /** The callback `s => String('0123456789'.indexOf(s))` that `/[０-９]/g` hands each
      full-width digit to: the lookup string holds the half-width digits only, so `indexOf`
      finds nothing and the digit becomes `"-1"`. */
  function FullWidthReplacement(c: char): (r: string)
    requires '０' <= c <= '９'
    ensures r == "-1"
  {
    var i := IndexOfChar("0123456789", c);
    IntToDecimal(match i case None => -1 case Some(k) => k)
  }

  /** `String(raw).replace(/[０-９]/g, …)` as written: each full-width digit is replaced and
      every other character kept. */
  function ReplaceFullWidth(raw: string): string {
    if |raw| == 0 then ""
    else (if '０' <= raw[0] <= '９' then FullWidthReplacement(raw[0]) else [raw[0]])
         + ReplaceFullWidth(raw[1..])
  }

  /** The longest prefix of `s` made of half-width digits. */
  function DigitPrefix(s: string): (r: string)
    ensures |r| <= |s| && r == s[..|r|]
    ensures forall i :: 0 <= i < |r| ==> IsAsciiDigit(r[i])
    ensures |r| < |s| ==> !IsAsciiDigit(s[|r|])
  {
    if |s| > 0 && IsAsciiDigit(s[0]) then [s[0]] + DigitPrefix(s[1..]) else []
  }

  /** `parseInt(s, 10)`: leading white space and one sign are skipped, then as many decimal
      digits as there are; `None` stands for `NaN`, the result when there is none. */
  function ParseDecimalInt(s: string): (r: Option<int>)
    ensures r.None? <==> DigitPrefix(SignSkipped(TrimStart(s))) == []
    ensures r.Some? && r.value < 0 ==> |TrimStart(s)| > 0 && TrimStart(s)[0] == '-'
  {
    var s1 := TrimStart(s);
    var negative := |s1| > 0 && s1[0] == '-';
    var digits := DigitPrefix(SignSkipped(s1));
    if digits == [] then None
    else Some(if negative then 0 - DecimalValue(digits) else DecimalValue(digits))
  }

  /** The text after one leading `-` or `+`. */
  function SignSkipped(s: string): (r: string)
    ensures r == s || (|s| > 0 && (s[0] == '-' || s[0] == '+') && r == s[1..])
  {
    if |s| > 0 && (s[0] == '-' || s[0] == '+') then s[1..] else s
  }

  /** The ordinal as line 110 reads it: the replaced run parsed with `parseInt`. */
  function OrdinalReading(raw: string): Option<int> {
    ParseDecimalInt(ReplaceFullWidth(raw))
  }

  /** As written, a run that starts with half-width digits reads as those leading digits
      only, and a run that starts with a full-width digit reads as a negative number, so the
      heuristic can never use a full-width ordinal. */
  lemma OrdinalReadingCases(raw: string)
    requires |raw| >= 1 && forall k :: 0 <= k < |raw| ==> IsOrdinalDigit(raw[k])
    ensures IsAsciiDigit(raw[0]) ==> OrdinalReading(raw) == Some(DecimalValue(DigitPrefix(raw)) as int)
    ensures !IsAsciiDigit(raw[0]) ==> OrdinalReading(raw).Some? && OrdinalReading(raw).value < 0
  {
    if IsAsciiDigit(raw[0]) {
      HalfWidthLeadReading(raw);
    } else {
      FullWidthLeadReading(raw);
    }
  }

  lemma HalfWidthLeadReading(raw: string)
    requires |raw| >= 1 && forall k :: 0 <= k < |raw| ==> IsOrdinalDigit(raw[k])
    requires IsAsciiDigit(raw[0])
    ensures OrdinalReading(raw) == Some(DecimalValue(DigitPrefix(raw)) as int)
  {
    HalfWidthLeadReplaced(raw);
    ParseLeadingDigits(ReplaceFullWidth(raw), DigitPrefix(raw));
  }

  /** `parseInt` of text that starts with the digits `p` and no further digit reads `p`. */
  lemma ParseLeadingDigits(r: string, p: string)
    requires 1 <= |p| <= |r| && r[..|p|] == p
    requires forall i :: 0 <= i < |p| ==> IsAsciiDigit(p[i])
    requires |p| == |r| || !IsAsciiDigit(r[|p|])
    ensures ParseDecimalInt(r) == Some(DecimalValue(p) as int)
  {
    assert r[0] == p[0];
    NoLeadingSpace(r);
    assert SignSkipped(TrimStart(r)) == r;
    PrefixOfDigits(r, p);
    assert r[0] != '-';
  }

  /** The replaced run starts with the leading half-width digits, then `-` or nothing. */
  lemma {:induction false} HalfWidthLeadReplaced(raw: string)
    requires forall k :: 0 <= k < |raw| ==> IsOrdinalDigit(raw[k])
    ensures var p := DigitPrefix(raw); var r := ReplaceFullWidth(raw);
      |p| <= |r| && r[..|p|] == p && (|p| == |r| || r[|p|] == '-')
  {
    if |raw| > 0 {
      var r := ReplaceFullWidth(raw);
      if IsAsciiDigit(raw[0]) {
        HalfWidthLeadReplaced(raw[1..]);
        var p' := DigitPrefix(raw[1..]);
        var r' := ReplaceFullWidth(raw[1..]);
        assert r == [raw[0]] + r';
        assert DigitPrefix(raw) == [raw[0]] + p';
        assert r[..|p'| + 1] == [raw[0]] + r'[..|p'|];
      } else {
        assert r == "-1" + ReplaceFullWidth(raw[1..]);
      }
    }
  }

  lemma FullWidthLeadReading(raw: string)
    requires |raw| >= 1 && forall k :: 0 <= k < |raw| ==> IsOrdinalDigit(raw[k])
    requires !IsAsciiDigit(raw[0])
    ensures OrdinalReading(raw).Some? && OrdinalReading(raw).value < 0
  {
    var r := ReplaceFullWidth(raw);
    assert r == "-1" + ReplaceFullWidth(raw[1..]);
    NoLeadingSpace(r);
    assert SignSkipped(r) == r[1..];
    var d := DigitPrefix(r[1..]);
    assert r[1..][0] == '1';
    assert d != [] && d[0] == '1';
    LeadingOneValue(d);
  }

  /** Text that does not start with white space is its own `trimStart`. */
  lemma NoLeadingSpace(s: string)
    requires |s| > 0 && !IsJsSpace(s[0])
    ensures TrimStart(s) == s
  {
  }

  lemma PrefixOfDigits(r: string, p: string)
    requires |p| <= |r| && r[..|p|] == p
    requires forall i :: 0 <= i < |p| ==> IsAsciiDigit(p[i])
    requires |p| == |r| || !IsAsciiDigit(r[|p|])
    ensures DigitPrefix(r) == p
  {
  }

  /** A run of digits that starts with `1` is worth at least one. */
  lemma {:induction false} LeadingOneValue(d: string)
    requires |d| >= 1 && d[0] == '1' && forall k :: 0 <= k < |d| ==> IsAsciiDigit(d[k])
    ensures DecimalValue(d) >= 1
  {
    if |d| > 1 {
      LeadingOneValue(d[..|d| - 1]);
    }
  }

  /** The corrected conversion reads the runs `４` and `3４` as 4 and 34. */
  lemma MixedRunValue()
    ensures OrdinalValue("４") == 4 && OrdinalValue("3４") == 34
  {
    assert "3４"[..1] == "3";
    assert "3"[..0] == "" && "４"[..0] == "";
  }

  /** Line 110 as written reads the run `４` as -1. */
  lemma FullWidthFourReading()
    ensures OrdinalReading("４") == Some(-1)
  {
    var one := "４";
    assert ReplaceFullWidth(one) == "-1" by {
      assert one[1..] == "";
    }
    ParseNegativeDigits("-1");
    assert DigitPrefix("1") == "1" by {
      PrefixOfDigits("1", "1");
    }
    assert DecimalValue("1") == 1 by {
      assert "1"[..0] == "";
    }
  }

  /** `parseInt` of `-` followed by a run of digits reads minus that run. */
  lemma ParseNegativeDigits(r: string)
    requires |r| >= 2 && r[0] == '-' && IsAsciiDigit(r[1])
    ensures ParseDecimalInt(r) == Some(0 - DecimalValue(DigitPrefix(r[1..])))
  {
    NoLeadingSpace(r);
    assert SignSkipped(r) == r[1..];
    assert r[1..][0] == r[1];
  }

  /** Line 110 as written reads the run `3４` as 3. */
  lemma MixedRunReading()
    ensures OrdinalReading("3４") == Some(3)
  {
    var two := "3４";
    var four := "４";
    assert four[1..] == "";
    assert ReplaceFullWidth(four) == "-1";
    assert two[1..] == four;
    assert ReplaceFullWidth(two) == "3-1";
    ParseLeadingDigits("3-1", "3");
    ThreeValue();
  }

  lemma ThreeValue()
    ensures DecimalValue("3") == 3
  {
    assert "3"[..0] == "";
  }

  /** The ordinal the instruction names, as the heuristic reads it, if any. */
  function OrdinalIndex(text: string): Option<int> {
    match Capture(Ordinal, text)
    case None => None
    case Some(raw) => OrdinalReading(raw)
  }

  /** `$(el).find('> div')`: the element children of `el` named `div`, in order. */
  function DivChildren(t: Tree, kids: seq<NodeId>): (r: seq<NodeId>)
    requires forall k :: 0 <= k < |kids| ==> kids[k] < |t|
    ensures forall k :: 0 <= k < |r| ==> r[k] in kids && IsElement(t[r[k]]) && t[r[k]].name == "div"
  {
    if |kids| == 0 then []
    else (if IsElement(t[kids[0]]) && t[kids[0]].name == "div" then [kids[0]] else [])
         + DivChildren(t, kids[1..])
  }

  /** The image the heuristic targets in `container`: the first `img` inside the
      `index`-th `div` child, else the `index`-th `img` anywhere inside. */
  function ImageTarget(t: Tree, container: NodeId, index: nat): (r: Option<NodeId>)
    requires WellFormed(t) && container < |t| && index >= 1
    ensures r.Some? ==> r.value < |t|
  {
    var divs := DivChildren(t, t[container].children);
    var inDiv := if index - 1 < |divs| then Select(t, Some(divs[index - 1]), [Named("img")]) else [];
    if |inDiv| > 0 then Some(inDiv[0])
    else
      var imgs := Select(t, Some(container), [Named("img")]);
      if index - 1 < |imgs| then Some(imgs[index - 1]) else None
  }

  /** The edit the heuristic proposes for the image at `path`. */
  function ImageEdit(path: string): Json {
    JObj([("path", JStr(path)), ("op", JStr("setAttr")), ("attr", JStr("src")),
          ("value", JStr("https://picsum.photos/600/400?random=ai"))])
  }

  /** The container: the first element carrying the class the instruction names. */
  function Container(t: Tree, cls: string): Option<NodeId>
    requires WellFormed(t)
  {
    var found := Select(t, None, [Classed(cls)]);
    if |found| == 0 then None else Some(found[0])
  }

  /** What `applyClassOrdinalHeuristic` returns. */
  function ClassOrdinalEdits(t: Tree, text: string): seq<Json>
    requires WellFormed(t)
  {
    var index := OrdinalIndex(text);
    var cls := Capture(ClassName, text);
    if index.None? || cls.None? || index.value < 1 then []
    else match Container(t, cls.value)
      case None => []
      case Some(c) =>
        match ImageTarget(t, c, index.value)
        case None => []
        case Some(img) =>
          var abs := AbsoluteSelector(t, img);
          if abs == "" then [] else [ImageEdit(abs)]
  }

  /** `applyClassOrdinalHeuristic`, with its early returns. */
  method ApplyClassOrdinalHeuristic(t: Tree, text: string) returns (result: seq<Json>)
    requires WellFormed(t)
    ensures result == ClassOrdinalEdits(t, text)
  {
    result := [];
    var numMatch := Capture(Ordinal, text);
    var classMatch := Capture(ClassName, text);
    if numMatch.None? || classMatch.None? {
      return;
    }
    var index := ParseDecimalInt(ReplaceFullWidth(numMatch.value));
    if index.None? || index.value <= 0 {
      return;
    }
    var container := Container(t, classMatch.value);
    if container.None? {
      return;
    }
    var target := ImageTarget(t, container.value, index.value);
    if target.None? {
      return;
    }
    var abs := BuildAbsoluteSelector(t, target.value);
    if abs == "" {
      return;
    }
    result := result + [ImageEdit(abs)];
  }

  /** The heuristic proposes at most one edit: none without an ordinal, without a class
      name or with an ordinal below 1, and otherwise a `src` change of the targeted image,
      addressed by its absolute selector. */
  lemma ClassOrdinalCases(t: Tree, text: string)
    requires WellFormed(t)
    ensures var r := ClassOrdinalEdits(t, text);
      && |r| <= 1
      && (Capture(Ordinal, text).None? || Capture(ClassName, text).None? ==> r == [])
      && (OrdinalIndex(text).Some? && OrdinalIndex(text).value < 1 ==> r == [])
      && (r != [] ==>
            var c := Container(t, Capture(ClassName, text).value);
            && c.Some? && OrdinalIndex(text).value >= 1
            && var img := ImageTarget(t, c.value, OrdinalIndex(text).value);
            && img.Some?
            && r == [ImageEdit(AbsoluteSelector(t, img.value))])
  {
  }

  /** As written, an instruction whose ordinal starts with a full-width digit gets no edit:
      the replaced run parses as a negative number. */
  lemma FullWidthOrdinalIgnored(t: Tree, text: string)
    requires WellFormed(t)
    requires Capture(Ordinal, text).Some? && !IsAsciiDigit(Capture(Ordinal, text).value[0])
    ensures ClassOrdinalEdits(t, text) == []
  {
    OrdinalReadingCases(Capture(Ordinal, text).value);
  }

  /** The image the heuristic targets is an `img`, found inside the `index`-th `div` child
      of the container when that child holds one, and inside the container otherwise. */
  lemma ImageTargetSound(t: Tree, container: NodeId, index: nat)
    requires WellFormed(t) && container < |t| && index >= 1
    ensures var r := ImageTarget(t, container, index);
      var divs := DivChildren(t, t[container].children);
      r.Some? ==>
        && Matches(t, r.value, Named("img"))
        && ((index - 1 < |divs| && IsAncestor(t, divs[index - 1], r.value))
            || IsAncestor(t, container, r.value))
  {
    var divs := DivChildren(t, t[container].children);
    if index - 1 < |divs| {
      SelectSound(t, Some(divs[index - 1]), [Named("img")]);
    }
    SelectSound(t, Some(container), [Named("img")]);
  }

  // ---------------------------------------------------------------------------------------
  // The fallback chain of handleEdit

  const DefaultMessage: string := "変更内容を反映しました。"
  const ClassOrdinalMessage: string := "指定クラス内のN番目の画像を置換しました。"
  const FallbackColor: string := "#d0f0c0"

  /** `typeof rawParsed?.message === "string" ? rawParsed.message : <default>` */
  function ReplyMessage(raw: Json): string {
    match Get(raw, "message")
    case Some(JStr(m)) => m
    case _ => DefaultMessage
  }

  /** The nearest element at or above `cur` that carries attribute `attr`
      (`closest('[attr]')`; `parents('[attr]').first()` when started at the parent). */
  function Closest(t: Tree, cur: Option<NodeId>, attr: string, fuel: nat): (r: Option<NodeId>)
    requires WellFormed(t)
    requires cur.Some? ==> cur.value < |t|
    ensures r.Some? ==> r.value < |t| && IsElement(t[r.value]) && attr in t[r.value].attrs
    decreases fuel
  {
    if cur.None? || fuel == 0 then None
    else if IsElement(t[cur.value]) && attr in t[cur.value].attrs then cur
    else Closest(t, t[cur.value].parent, attr, fuel - 1)
  }

  /** The section value of `el`, when `el` exists and the value is not empty. */
  function SectionOf(t: Tree, el: Option<NodeId>): (r: Option<string>)
    requires el.Some? ==> el.value < |t|
    ensures r.Some? ==> r.value != ""
  {
    if el.Some? && Attr(t[el.value], "data-section") != "" then Some(Attr(t[el.value], "data-section"))
    else None
  }

  /** The section enclosing the first `h1` of the page. */
  function H1Section(t: Tree): Option<string>
    requires WellFormed(t)
  {
    var h1s := Select(t, None, [Named("h1")]);
    if |h1s| == 0 then None
    else SectionOf(t, Closest(t, t[h1s[0]].parent, "data-section", |t|))
  }

  /** `[data-section].mv, [data-section].hero, [data-section] .mv, [data-section] .hero` */
  predicate IsHero(t: Tree, i: NodeId)
    requires WellFormed(t) && i < |t|
  {
    IsElement(t[i]) && (HasClass(t[i], "mv") || HasClass(t[i], "hero")) &&
    ("data-section" in t[i].attrs || Closest(t, t[i].parent, "data-section", |t|).Some?)
  }

  /** The first hero match at or after `i`, in document order. */
  function FirstHero(t: Tree, i: nat): (r: Option<NodeId>)
    requires WellFormed(t) && i <= |t|
    ensures r.Some? ==> i <= r.value < |t| && IsHero(t, r.value)
    ensures r.Some? ==> forall k :: i <= k < r.value ==> !IsHero(t, k)
    ensures r.None? ==> forall k :: i <= k < |t| ==> !IsHero(t, k)
    decreases |t| - i
  {
    if i == |t| then None else if IsHero(t, i) then Some(i) else FirstHero(t, i + 1)
  }

  /** The section of the first hero match's closest sectioned element. */
  function HeroSection(t: Tree): Option<string>
    requires WellFormed(t)
  {
    var hero := FirstHero(t, 0);
    if hero.None? then None else SectionOf(t, Closest(t, hero, "data-section", |t|))
  }

  /** `/(メインビジュアル|ヒーロー|MV)/i` */
  predicate MentionsHero(text: string) {
    Contains(text, "メインビジュアル") || Contains(text, "ヒーロー") || Contains(AsciiLower(text), "mv")
  }

  function BackgroundEdit(section: string): Json {
    JObj([("section", JStr(section)), ("op", JStr("setStyle")),
          ("value", JObj([("background-color", JStr(FallbackColor))]))])
  }

  /** The background-colour rules, in their order: asked for a background colour and
      naming `h1`, the section around the first `h1`; else, naming the main visual, the
      section around the first hero element. The result carries the section and the
      message. */
  function BackgroundRule(t: Tree, text: string): Option<(string, string)>
    requires WellFormed(t)
  {
    if !Contains(text, "背景色") then None
    else if Contains(text, "h1") && H1Section(t).Some? then
      Some((H1Section(t).value, "見出し(h1)を含むセクション(" + H1Section(t).value + ")の背景色を変更しました。"))
    else if MentionsHero(text) && HeroSection(t).Some? then
      Some((HeroSection(t).value, "メインビジュアル想定セクション(" + HeroSection(t).value + ")の背景色を変更しました。"))
    else None
  }

  /** The fallback chain: the model's edits when there are any; otherwise the first
      background-colour rule that applies; otherwise the class + ordinal heuristic; the
      reply's message is kept except where a rule supplies its own. */
  method ResolveFinalEdits(t: Tree, text: string, edits: seq<Json>, rawParsed: Json)
    returns (finalEdits: seq<Json>, message: string)
    requires WellFormed(t)
    ensures edits != [] ==> finalEdits == edits && message == ReplyMessage(rawParsed)
    ensures edits == [] && BackgroundRule(t, text).Some? ==>
      finalEdits == [BackgroundEdit(BackgroundRule(t, text).value.0)] &&
      message == BackgroundRule(t, text).value.1
    ensures edits == [] && BackgroundRule(t, text).None? && ClassOrdinalEdits(t, text) != [] ==>
      finalEdits == ClassOrdinalEdits(t, text) &&
      message == (if ReplyMessage(rawParsed) != "" then ReplyMessage(rawParsed) else ClassOrdinalMessage)
    ensures edits == [] && BackgroundRule(t, text).None? && ClassOrdinalEdits(t, text) == [] ==>
      finalEdits == [] && message == ReplyMessage(rawParsed)
  {
    finalEdits := edits;
    message := ReplyMessage(rawParsed);
    if |finalEdits| == 0 && Contains(text, "背景色") {
      if Contains(text, "h1") {
        var secId := H1Section(t);
        if secId.Some? {
          finalEdits := [BackgroundEdit(secId.value)];
          message := "見出し(h1)を含むセクション(" + secId.value + ")の背景色を変更しました。";
        }
      }
      if |finalEdits| == 0 && MentionsHero(text) {
        var secId := HeroSection(t);
        if secId.Some? {
          finalEdits := [BackgroundEdit(secId.value)];
          message := "メインビジュアル想定セクション(" + secId.value + ")の背景色を変更しました。";
        }
      }
    }
    if |finalEdits| == 0 {
      var e2 := ApplyClassOrdinalHeuristic(t, text);
      if |e2| > 0 {
        finalEdits := e2;
        message := if message != "" then message else ClassOrdinalMessage;
      }
    }
  }
}
