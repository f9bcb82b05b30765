/**
  The preview page's patch executor (demo/app.js): it resolves each edit's target inside the
  previewed page and applies one of four operations to that node in place.

  The model keeps the page's element structure (tag names and parent links) fixed, in a
  `Context`: the elements that `setHTML` parses out of its markup are not added to it, so a
  later edit of the same batch cannot target them. The per-node state that the operations
  change is a sequence of `NodeState`s, indexed like the structure. The browser pieces the
  executor calls into are part of the context as oracles: `querySelector`, `CSS.escape`, the
  CSS property and value grammar that `style.setProperty` consults, the attribute names
  `setAttribute` accepts, and the random picsum token.
*/
module DemoApp {
  import opened Wrappers
  import opened Text
  import opened JsValue

  // ---------------------------------------------------------------------------------------
  // normalizeCssPropName (demo/app.js:12-18)
  // ---------------------------------------------------------------------------------------

  predicate IsAsciiUpper(c: char) { 'A' <= c <= 'Z' }

  predicate NoAsciiUpper(s: string) {
    forall k :: 0 <= k < |s| ==> !IsAsciiUpper(s[k])
  }

  /** The replacement of one character by `name.replace(/[A-Z]/g, m => "-" + m.toLowerCase())`. */
  function KebabUnit(c: char): (r: string)
    ensures NoAsciiUpper(r) && 1 <= |r| <= 2
    ensures !IsAsciiUpper(c) ==> r == [c]
  {
    if IsAsciiUpper(c) then "-" + [AsciiLowerChar(c)] else [c]
  }

  /** camelCase to kebab-case: every ASCII capital becomes `-` and its lower case. */
  function KebabCase(s: string): (r: string)
    ensures |r| >= |s|
    ensures NoAsciiUpper(r)
    ensures NoAsciiUpper(s) ==> r == s
  {
    if |s| == 0 then ""
    else KebabUnit(s[0]) + KebabCase(s[1..])
  }

  /** Without a dash in the name, every dash of its kebab form comes before a lower-case
      letter. */
  lemma {:induction false} KebabDashes(s: string)
    requires '-' !in s
    ensures forall k :: 0 <= k < |KebabCase(s)| && KebabCase(s)[k] == '-' ==>
      k + 1 < |KebabCase(s)| && 'a' <= KebabCase(s)[k + 1] <= 'z'
  {
    if |s| > 0 {
      assert '-' !in s[1..];
      KebabDashes(s[1..]);
      var u, rest := KebabUnit(s[0]), KebabCase(s[1..]);
      assert KebabCase(s) == u + rest;
      forall k | 0 <= k < |u + rest| && (u + rest)[k] == '-'
        ensures k + 1 < |u + rest| && 'a' <= (u + rest)[k + 1] <= 'z'
      {
        if k >= |u| {
          assert (u + rest)[k] == rest[k - |u|];
          assert k + 1 < |u + rest| ==> (u + rest)[k + 1] == rest[k + 1 - |u|];
        } else if IsAsciiUpper(s[0]) {
          assert u == ['-', AsciiLowerChar(s[0])];
          assert k == 0 && (u + rest)[1] == AsciiLowerChar(s[0]);
        }
      }
    }
  }

  /** `normalizeCssPropName` on a string: custom properties (`--x`) are kept, a name that
      already has a dash is lowercased, any other name is converted from camelCase. The
      empty name is returned as it is. */
  function NormalizeCssPropName(name: string): (r: string)
    ensures StartsWith(name, "--") ==> r == name
    ensures !StartsWith(name, "--") ==> NoAsciiUpper(r)
    ensures r == "" <==> name == ""
  {
    if name == "" then name
    else if StartsWith(name, "--") then name
    else if '-' in name then AsciiLower(name)
    else KebabCase(name)
  }

  lemma LowerOfLowerCase(s: string)
    requires NoAsciiUpper(s)
    ensures AsciiLower(s) == s
  {
    assert forall k :: 0 <= k < |s| ==> AsciiLowerChar(s[k]) == s[k];
  }

  /** Normalising a property name a second time changes nothing. */
  lemma NormalizeCssPropNameIdempotent(name: string)
    ensures NormalizeCssPropName(NormalizeCssPropName(name)) == NormalizeCssPropName(name)
  {
    var r := NormalizeCssPropName(name);
    if name == "" || StartsWith(name, "--") {
    } else if '-' in name {
      LowerOfLowerCase(r);
      var k :| 0 <= k < |name| && name[k] == '-';
      assert r[k] == '-';
    } else {
      KebabDashes(name);
      LowerOfLowerCase(r);
      assert !StartsWith(r, "--") by {
        assert |r| < 2 || r[0] != '-' || r[1] != '-';
      }
    }
  }

  lemma {:induction false} KebabCaseAppend(a: string, b: string)
    ensures KebabCase(a + b) == KebabCase(a) + KebabCase(b)
  {
    if |a| > 0 {
      assert (a + b)[0] == a[0] && (a + b)[1..] == a[1..] + b;
      KebabCaseAppend(a[1..], b);
    } else {
      assert a + b == b;
    }
  }

  /** A hump in a camelCase name becomes a dash and the lower-case letter; the rest of the
      name is left as it is. */
  lemma CamelHumpToKebab(head: string, hump: char, tail: string)
    requires '-' !in head && '-' !in tail && NoAsciiUpper(head) && NoAsciiUpper(tail)
    requires IsAsciiUpper(hump)
    ensures NormalizeCssPropName(head + [hump] + tail) == head + "-" + [AsciiLowerChar(hump)] + tail
  {
    var name := head + [hump] + tail;
    KebabHump(head, hump);
    KebabCaseAppend(head + [hump], tail);
    assert KebabCase(name) == head + "-" + [AsciiLowerChar(hump)] + tail;
    NormalizeWithoutDash(name);
  }

  lemma KebabHump(head: string, hump: char)
    requires NoAsciiUpper(head) && IsAsciiUpper(hump)
    ensures KebabCase(head + [hump]) == head + "-" + [AsciiLowerChar(hump)]
  {
    KebabOne(hump);
    KebabCaseAppend(head, [hump]);
    assert KebabCase(head) == head;
  }

  lemma KebabOne(c: char)
    ensures KebabCase([c]) == KebabUnit(c)
  {
    assert [c][1..] == [];
    assert KebabCase([c]) == KebabUnit(c) + "";
  }

  lemma NormalizeWithoutDash(name: string)
    requires name != "" && '-' !in name
    ensures NormalizeCssPropName(name) == KebabCase(name)
  {
    assert name[0] != '-';
  }

  // ---------------------------------------------------------------------------------------
  // The page and its browser
  // ---------------------------------------------------------------------------------------

  /** The fixed structure of one element: its lower-case tag name and its parent. */
  datatype Shape = Shape(tag: string, parent: Option<nat>)

  /** What `textContent` / `innerHTML` last put into an element, if anything. */
  datatype Content = Parsed | TextContent(text: string) | InnerHtml(html: string)

  /** What the executor changes about an element. A node that is no longer in the tree
      (a removed `<source>`, or a child of an element whose content was replaced) is not
      `attached` and has no parent any more. */
  datatype NodeState = NodeState(
    attrs: map<string, string>,
    style: map<string, string>,
    content: Content,
    attached: bool)

  /** The page structure and the browser behaviour the executor relies on.
      - `query(nodes, selector)`: `querySelector` on the current page; `None` for no match and
        for a selector the browser rejects (`queryIframe` catches the exception).
      - `escape`: `CSS.escape`.
      - `supports(p)`: whether `p` (already lower-cased) is a CSS property the browser knows.
      - `parses(p, v)`: whether `v` is a value the browser accepts for `p`.
      - `validName(a)`: whether `setAttribute` accepts `a` as an attribute name; for any other
        name it throws an `InvalidCharacterError`.
      - `token(n)`: the random token of the `n`-th picsum URL the page builds. */
  datatype Context = Context(
    frame: seq<Shape>,
    query: (seq<NodeState>, string) -> Option<nat>,
    escape: string -> string,
    supports: string -> bool,
    parses: (string, string) -> bool,
    validName: string -> bool,
    token: nat -> string)

  ghost predicate ValidContext(ctx: Context) {
    (forall i :: 0 <= i < |ctx.frame| && ctx.frame[i].parent.Some? ==> ctx.frame[i].parent.value < |ctx.frame|) &&
    (forall nodes, s :: ctx.query(nodes, s).Some? ==> ctx.query(nodes, s).value < |ctx.frame|)
  }

  /** The executor's state: the page's nodes, how many picsum URLs it has built, and the
      lines it has written to the chat log. */
  datatype Live = Live(nodes: seq<NodeState>, issued: nat, log: seq<Json>)

  predicate Fits(ctx: Context, st: Live) {
    |st.nodes| == |ctx.frame|
  }

  /** The result of applying an edit: the new state, and whether the edit threw (which ends
      the whole batch). */
  datatype Outcome = Outcome(state: Live, thrown: bool)

  // ---------------------------------------------------------------------------------------
  // Target resolution (demo/app.js:117-121, 134-161)
  // ---------------------------------------------------------------------------------------

  /** `path && path.trim().length > 0 ? path.trim() : null`; `trim` on a truthy non-string
      throws a TypeError. */
  function PathSelector(path: Json): (r: Result<Option<string>, string>)
    ensures r.Err? <==> Truthy(path) && !path.JStr?
    ensures r == Ok(None) <==> !Truthy(path) || (path.JStr? && Trim(path.s) == "")
    ensures r.Ok? && r.value.Some? ==> path.JStr? && r.value.value == Trim(path.s) != ""
  {
    if !Truthy(path) then Ok(None)
    else if !path.JStr? then Err("TypeError: path.trim is not a function")
    else if Trim(path.s) == "" then Ok(None)
    else Ok(Some(Trim(path.s)))
  }

  /** `[data-section="<CSS.escape(section)>"]` */
  function SectionSelector(ctx: Context, section: Json): string {
    "[data-section=\"" + ctx.escape(ToJsString(section)) + "\"]"
  }

  /** The selector the executor queries first: without a section, the trimmed path as it is;
      with a section, a selector scoped to that section. */
  function ScopedSelector(ctx: Context, section: Json, selector: Option<string>): (r: Option<string>)
    ensures !Truthy(section) ==> r == selector
    ensures Truthy(section) && selector.None? ==> r == Some(SectionSelector(ctx, section))
    ensures Truthy(section) ==> r.Some?
  {
    if !Truthy(section) then selector
    else if selector.None? then Some(SectionSelector(ctx, section))
    else
      var sel := selector.value;
      var idPrefix := "#" + ToJsString(section);
      if StartsWith(sel, idPrefix) then
        var rest := AfterIdPrefix(sel[|idPrefix|..]);
        Some(if rest != "" then SectionSelector(ctx, section) + " " + rest else SectionSelector(ctx, section))
      else if !StartsWith(sel, "[data-section=") then
        Some(SectionSelector(ctx, section) + " " + sel)
      else
        Some(sel)
  }

  /** What remains of a path after its `#<section>` prefix: trimmed, with one leading `>`
      (the child combinator) and the space after it removed. */
  function AfterIdPrefix(tail: string): (r: string)
    ensures r == Trim(r)
  {
    var rest := Trim(tail);
    TrimIdempotent(tail);
    if StartsWith(rest, ">") then TrimIdempotent(rest[1..]); Trim(rest[1..]) else rest
  }

  lemma AfterIdPrefixChild(rest: string)
    requires rest != "" && !IsJsSpace(rest[0]) && !IsJsSpace(rest[|rest| - 1])
    ensures AfterIdPrefix(" > " + rest) == rest
  {
    var child := "> " + rest;
    TrimLeadingSpace(child);
    assert " > " + rest == " " + child;
    assert child[..1] == ">";
    assert child[1..] == " " + rest;
    TrimLeadingSpace(rest);
  }

  /** One space before a string with no white space at its ends is trimmed away. */
  lemma TrimLeadingSpace(s: string)
    requires s != "" && !IsJsSpace(s[0]) && !IsJsSpace(s[|s| - 1])
    ensures Trim(" " + s) == s
  {
    TrimSpacePrefix(" ", s);
  }

  /** A path that does not start with `#<section>` nor with `[data-section=` is prefixed
      with the section's selector. */
  lemma ScopedSelectorPrefixes(ctx: Context, section: string, sel: string)
    requires section != "" && sel != ""
    requires !StartsWith(sel, "#" + section) && !StartsWith(sel, "[data-section=")
    ensures ScopedSelector(ctx, JStr(section), Some(sel)) == Some(SectionSelector(ctx, JStr(section)) + " " + sel)
  {
  }

  lemma TrimSpacePrefix(w: string, s: string)
    requires forall k :: 0 <= k < |w| ==> IsJsSpace(w[k])
    requires s == [] || (!IsJsSpace(s[0]) && !IsJsSpace(s[|s| - 1]))
    ensures Trim(w + s) == s
  {
    TrimStartSpacePrefix(w, s);
    TrimmedIsFixed(s);
  }

  lemma {:induction false} TrimStartSpacePrefix(w: string, s: string)
    requires forall k :: 0 <= k < |w| ==> IsJsSpace(w[k])
    requires s == [] || !IsJsSpace(s[0])
    ensures TrimStart(w + s) == TrimStart(s)
  {
    if |w| > 0 {
      assert (w + s)[0] == w[0] && (w + s)[1..] == w[1..] + s;
      TrimStartSpacePrefix(w[1..], s);
    } else {
      assert w + s == s;
    }
  }

  /** A path with no white space at its ends is used as it is. */
  lemma PathKept(path: string)
    requires path != "" && !IsJsSpace(path[0]) && !IsJsSpace(path[|path| - 1])
    ensures PathSelector(JStr(path)) == Ok(Some(path))
  {
    TrimmedIsFixed(path);
  }

  /** `#<section> > rest` becomes `[data-section="…"] rest`: the id and one `>` go, the
      rest of the path is kept relative to the section. */
  lemma IdPrefixRewrite(ctx: Context, section: string, rest: string)
    requires section != "" && rest != ""
    requires !IsJsSpace(rest[0]) && !IsJsSpace(rest[|rest| - 1]) && rest[0] != '>'
    ensures ScopedSelector(ctx, JStr(section), PathSelector(JStr("#" + section + " > " + rest)).value) ==
      Some(SectionSelector(ctx, JStr(section)) + " " + rest)
  {
    ChildPathKept(section, rest);
    ScopedChildPath(ctx, section, rest);
  }

  lemma ChildPathKept(section: string, rest: string)
    requires rest != "" && !IsJsSpace(rest[|rest| - 1])
    ensures var path := "#" + section + " > " + rest;
      PathSelector(JStr(path)) == Ok(Some(path))
  {
    var path := "#" + section + " > " + rest;
    assert path[0] == '#' && path[|path| - 1] == rest[|rest| - 1];
    PathKept(path);
  }

  lemma ScopedChildPath(ctx: Context, section: string, rest: string)
    requires section != "" && rest != ""
    requires !IsJsSpace(rest[0]) && !IsJsSpace(rest[|rest| - 1]) && rest[0] != '>'
    ensures ScopedSelector(ctx, JStr(section), Some("#" + section + " > " + rest)) ==
      Some(SectionSelector(ctx, JStr(section)) + " " + rest)
  {
    var tail := " > " + rest;
    assert "#" + section + " > " + rest == "#" + section + tail;
    AfterIdPrefixChild(rest);
    assert ToJsString(JStr(section)) == section;
    ScopedIdPath(ctx, JStr(section), tail);
  }

  /** A selector that starts with `#<section>` is rewritten from what follows the id. */
  lemma ScopedIdPath(ctx: Context, section: Json, tail: string)
    requires Truthy(section)
    ensures var rest := AfterIdPrefix(tail);
      ScopedSelector(ctx, section, Some("#" + ToJsString(section) + tail)) ==
        Some(if rest != "" then SectionSelector(ctx, section) + " " + rest else SectionSelector(ctx, section))
  {
    var idPrefix := "#" + ToJsString(section);
    var sel := idPrefix + tail;
    assert StartsWith(sel, idPrefix) by {
      assert sel[..|idPrefix|] == idPrefix;
    }
    assert sel[|idPrefix|..] == tail;
  }

  /** A path that is just `#<section>` (with or without a trailing `>`) addresses the section
      element itself. */
  lemma IdOnlyRewrite(ctx: Context, section: string)
    requires section != "" && !IsJsSpace(section[|section| - 1])
    ensures ScopedSelector(ctx, JStr(section), PathSelector(JStr("#" + section)).value) ==
      Some(SectionSelector(ctx, JStr(section)))
  {
    var path := "#" + section;
    assert path[|path| - 1] == section[|section| - 1];
    PathKept(path);
    assert ToJsString(JStr(section)) == section;
    assert path + "" == path;
    ScopedIdPath(ctx, JStr(section), "");
  }

  /** The node an edit addresses: the scoped selector's first match, else (when `path` is
      truthy) the raw path's first match in the whole page. */
  function Target(ctx: Context, nodes: seq<NodeState>, section: Json, path: Json): (r: Result<Option<nat>, string>)
    requires ValidContext(ctx)
    ensures r.Err? <==> Truthy(path) && !path.JStr?
    ensures r.Ok? && r.value.Some? ==> r.value.value < |ctx.frame|
    ensures r.Ok? && r.value.None? && Truthy(path) ==> ctx.query(nodes, path.s).None?
  {
    match PathSelector(path)
    case Err(m) => Err(m)
    case Ok(trimmed) =>
      var selector := ScopedSelector(ctx, section, trimmed);
      var el := if selector.Some? then ctx.query(nodes, selector.value) else None;
      Ok(if el.None? && Truthy(path) then ctx.query(nodes, path.s) else el)
  }

  /** `Target` once the path has been read. */
  lemma TargetFound(ctx: Context, nodes: seq<NodeState>, section: Json, path: Json)
    requires ValidContext(ctx) && PathSelector(path).Ok?
    ensures var selector := ScopedSelector(ctx, section, PathSelector(path).value);
      var el := if selector.Some? then ctx.query(nodes, selector.value) else None;
      Target(ctx, nodes, section, path) == Ok(if el.None? && Truthy(path) then ctx.query(nodes, path.s) else el)
  {
  }

  // ---------------------------------------------------------------------------------------
  // The operations, as functions of the state
  // ---------------------------------------------------------------------------------------

  /** The parent of node `i` in the current tree. */
  function LiveParent(ctx: Context, nodes: seq<NodeState>, i: nat): (r: Option<nat>)
    requires ValidContext(ctx) && |nodes| == |ctx.frame| && i < |nodes|
    ensures r.Some? ==> r.value < |nodes|
  {
    if nodes[i].attached then ctx.frame[i].parent else None
  }

  /** `el.textContent = v` / `el.innerHTML = v`: the element's content is replaced, so its
      children leave the tree. Nothing else changes; the elements parsed out of `v` are not
      added to the structure. */
  function WithContent(nodes: seq<NodeState>, el: nat, c: Content, frame: seq<Shape>): (r: seq<NodeState>)
    requires |nodes| == |frame| && el < |nodes|
    ensures |r| == |nodes| && r[el] == nodes[el].(content := c)
    ensures forall i :: 0 <= i < |r| && i != el ==>
      r[i] == if frame[i].parent == Some(el) then nodes[i].(attached := false) else nodes[i]
  {
    seq(|nodes|, i requires 0 <= i < |nodes| =>
      if i == el then nodes[i].(content := c)
      else if frame[i].parent == Some(el) then nodes[i].(attached := false)
      else nodes[i])
  }

  /** `el.closest('picture')`: the element itself or its nearest ancestor in the tree that is
      a `<picture>`. The climb is bounded by the number of nodes. */
  function ClosestPicture(ctx: Context, nodes: seq<NodeState>, cur: nat, fuel: nat): (r: Option<nat>)
    requires ValidContext(ctx) && |nodes| == |ctx.frame| && cur < |nodes|
    ensures r.Some? ==> r.value < |nodes| && ctx.frame[r.value].tag == "picture"
    ensures r.Some? ==> r.value == cur || Below(ctx, nodes, r.value, cur, fuel)
    decreases fuel
  {
    if ctx.frame[cur].tag == "picture" then Some(cur)
    else if fuel == 0 || LiveParent(ctx, nodes, cur).None? then None
    else ClosestPicture(ctx, nodes, LiveParent(ctx, nodes, cur).value, fuel - 1)
  }

  /** `anc` is a proper ancestor of `cur` in the current tree (within `fuel` steps). */
  predicate Below(ctx: Context, nodes: seq<NodeState>, anc: nat, cur: nat, fuel: nat)
    requires ValidContext(ctx) && |nodes| == |ctx.frame| && cur < |nodes|
    decreases fuel
  {
    var p := LiveParent(ctx, nodes, cur);
    p.Some? && (p.value == anc || (fuel > 0 && Below(ctx, nodes, anc, p.value, fuel - 1)))
  }

  /** Node `i` is one of `picture.querySelectorAll('source')`. */
  predicate SourceIn(ctx: Context, nodes: seq<NodeState>, picture: nat, i: nat)
    requires ValidContext(ctx) && |nodes| == |ctx.frame| && i < |nodes|
  {
    ctx.frame[i].tag == "source" && Below(ctx, nodes, picture, i, |nodes|)
  }

  /** Every `<source>` inside the picture removed from the tree; nothing else changes. */
  function WithoutSources(ctx: Context, nodes: seq<NodeState>, picture: nat): (r: seq<NodeState>)
    requires ValidContext(ctx) && |nodes| == |ctx.frame|
    ensures |r| == |nodes|
    ensures forall i :: 0 <= i < |r| ==>
      r[i] == if SourceIn(ctx, nodes, picture, i) then nodes[i].(attached := false) else nodes[i]
  {
    seq(|nodes|, i requires 0 <= i < |nodes| =>
      if SourceIn(ctx, nodes, picture, i) then nodes[i].(attached := false) else nodes[i])
  }

  /** The URL `buildPicsumUrlForImage` returns: a fixed 600x400 picture with a random token. */
  function PicsumUrl(token: string): string {
    "https://picsum.photos/600/400?random=" + token
  }

  /** The attributes that would make a browser keep showing the old picture. */
  const LazyImageAttrs: set<string> := {"srcset", "sizes", "data-src", "data-srcset"}

  /** `setAttr` of `src` on an `<img>`. */
  function ReplaceImage(ctx: Context, st: Live, el: nat): (r: Live)
    requires ValidContext(ctx) && Fits(ctx, st) && el < |st.nodes|
    ensures Fits(ctx, r) && r.issued == st.issued + 1 && r.log == st.log
    ensures r.nodes[el].attrs == (st.nodes[el].attrs - LazyImageAttrs)["src" := PicsumUrl(ctx.token(st.issued))]
    ensures r.nodes[el].content == st.nodes[el].content && r.nodes[el].style == st.nodes[el].style
  {
    var n := st.nodes[el];
    var cleared := st.nodes[el := n.(attrs := n.attrs - LazyImageAttrs)];
    var picture := ClosestPicture(ctx, cleared, el, |cleared|);
    var pruned := if picture.Some? then WithoutSources(ctx, cleared, picture.value) else cleared;
    var m := pruned[el];
    assert m.attrs == n.attrs - LazyImageAttrs && m.content == n.content && m.style == n.style;
    Live(pruned[el := m.(attrs := m.attrs["src" := PicsumUrl(ctx.token(st.issued))])], st.issued + 1, st.log)
  }

  /** `setAttr` of `srcset` on an `<img>`. */
  function ReplaceImageSet(ctx: Context, st: Live, el: nat): (r: Live)
    requires Fits(ctx, st) && el < |st.nodes|
    ensures Fits(ctx, r) && r.issued == st.issued + 1 && r.log == st.log
    ensures r.nodes == st.nodes[el := st.nodes[el].(attrs := st.nodes[el].attrs["src" := PicsumUrl(ctx.token(st.issued))] - {"srcset", "sizes"})]
  {
    var n := st.nodes[el];
    Live(st.nodes[el := n.(attrs := n.attrs["src" := PicsumUrl(ctx.token(st.issued))] - {"srcset", "sizes"})], st.issued + 1, st.log)
  }

  /** The `setAttr` operation: a falsy `attr` does nothing, a non-string one throws. */
  function AttrEffect(ctx: Context, st: Live, el: nat, attr: Json, value: Json): (r: Outcome)
    requires ValidContext(ctx) && Fits(ctx, st) && el < |st.nodes|
    ensures Fits(ctx, r.state)
    ensures r.thrown <==> Truthy(attr) && (!attr.JStr? || (!PicsumAttr(ctx, el, attr.s) && !ctx.validName(attr.s)))
    ensures r.thrown || !Truthy(attr) ==> r.state == st
  {
    if !Truthy(attr) then Outcome(st, false)
    else if !attr.JStr? then Outcome(st, true)
    else
      var n := st.nodes[el];
      var name := AsciiLower(attr.s);
      if name == "src" && ctx.frame[el].tag == "img" then Outcome(ReplaceImage(ctx, st, el), false)
      else if name == "srcset" && ctx.frame[el].tag == "img" then Outcome(ReplaceImageSet(ctx, st, el), false)
      else if !ctx.validName(attr.s) then Outcome(st, true)
      else Outcome(st.(nodes := st.nodes[el := n.(attrs := n.attrs[name := DomString(value)])]), false)
  }

  /** `src` or `srcset`, in any case, on an `img`: the names the executor turns into a
      picsum replacement instead of a plain `setAttribute`. */
  predicate PicsumAttr(ctx: Context, el: nat, attr: string)
    requires el < |ctx.frame|
  {
    var name := AsciiLower(attr);
    (name == "src" || name == "srcset") && ctx.frame[el].tag == "img"
  }

  /** `style.setProperty(name, value)`: the empty value removes the property; a name or a
      value the browser does not accept is ignored. Custom properties keep their case,
      other names are lower-cased. */
  function SetProperty(ctx: Context, style: map<string, string>, name: string, value: string): (r: map<string, string>)
    ensures forall q :: q in style && q != PropertyKey(name) ==> q in r && r[q] == style[q]
    ensures forall q :: q in r && q != PropertyKey(name) ==> q in style
    ensures value == "" ==> PropertyKey(name) !in r || r == style
    ensures value != "" && PropertyKey(name) in r ==> r[PropertyKey(name)] == value || r == style
  {
    var p := PropertyKey(name);
    if !StartsWith(name, "--") && !ctx.supports(p) then style
    else if value == "" then style - {p}
    else if StartsWith(name, "--") || ctx.parses(p, value) then style[p := value]
    else style
  }

  /** The key `setProperty` stores a declaration under. */
  function PropertyKey(name: string): string {
    if StartsWith(name, "--") then name else AsciiLower(name)
  }

  /** A sequence of `setProperty` calls, first to last. */
  function SetProperties(ctx: Context, style: map<string, string>, decls: seq<(string, string)>): map<string, string>
  {
    if |decls| == 0 then style
    else
      var last := decls[|decls| - 1];
      SetProperty(ctx, SetProperties(ctx, style, decls[..|decls| - 1]), last.0, last.1)
  }

  lemma SetPropertiesSnoc(ctx: Context, style: map<string, string>, decls: seq<(string, string)>, d: (string, string))
    ensures SetProperties(ctx, style, decls + [d]) == SetProperty(ctx, SetProperties(ctx, style, decls), d.0, d.1)
  {
    assert (decls + [d])[..|decls|] == decls;
  }

  /** Writes of distinct properties do not interfere: the last write to a property decides it. */
  lemma {:induction false} SetPropertiesOthers(ctx: Context, style: map<string, string>, decls: seq<(string, string)>, q: string)
    requires forall i :: 0 <= i < |decls| ==> PropertyKey(decls[i].0) != q
    ensures q in SetProperties(ctx, style, decls) <==> q in style
    ensures q in style ==> SetProperties(ctx, style, decls)[q] == style[q]
  {
    if |decls| > 0 {
      SetPropertiesOthers(ctx, style, decls[..|decls| - 1], q);
    }
  }

  /** One piece of a declaration string (`"name: value"`) read the executor's way: the colon
      must come after at least one character, and neither the trimmed, normalised name nor
      the trimmed value may be empty. */
  function ParseDeclaration(decl: string): (r: Option<(string, string)>)
    ensures r.Some? ==> r.value.0 != "" && r.value.1 != ""
  {
    match IndexOfChar(decl, ':')
    case None => None
    case Some(i) => SplitDeclaration(decl, i)
  }

  /** A declaration whose first colon is at `i`. */
  function SplitDeclaration(decl: string, i: nat): (r: Option<(string, string)>)
    requires i < |decl|
    ensures r.Some? ==> r.value.0 != "" && r.value.1 != ""
  {
    if i == 0 then None
    else
      var prop := NormalizeCssPropName(Trim(decl[..i]));
      var val := Trim(decl[i + 1..]);
      if prop != "" && val != "" then Some((prop, val)) else None
  }

  /** The values of the `Some`s in `xs`, in order. */
  function Somes<T>(xs: seq<Option<T>>): (r: seq<T>)
    ensures |r| <= |xs|
    ensures forall y :: y in r ==> Some(y) in xs
  {
    if |xs| == 0 then []
    else
      var init := xs[..|xs| - 1];
      assert forall x :: x in init ==> x in xs;
      Somes(init) + (if xs[|xs| - 1].Some? then [xs[|xs| - 1].value] else [])
  }

  lemma {:induction false} SomesStep<T>(xs: seq<Option<T>>, x: Option<T>)
    ensures Somes(xs + [x]) == Somes(xs) + (if x.Some? then [x.value] else [])
  {
    assert (xs + [x])[..|xs|] == xs;
  }

  /** Every value wrapped as present. */
  function AllSome<T>(ys: seq<T>): (r: seq<Option<T>>)
    ensures |r| == |ys| && forall i :: 0 <= i < |ys| ==> r[i] == Some(ys[i])
  {
    seq(|ys|, i requires 0 <= i < |ys| => Some(ys[i]))
  }

  lemma {:induction false} SomesOfAll<T>(ys: seq<T>)
    ensures Somes(AllSome(ys)) == ys
  {
    if |ys| > 0 {
      var init, last := ys[..|ys| - 1], ys[|ys| - 1];
      SomesOfAll(init);
      assert AllSome(ys) == AllSome(init) + [Some(last)];
      SomesStep(AllSome(init), Some(last));
      assert ys == init + [last];
    }
  }

  /** One more parsed piece: a declaration adds one `setProperty` call, anything else none. */
  lemma DeclarationStep(ctx: Context, start: map<string, string>, parsed: seq<Option<(string, string)>>, i: nat)
    requires i < |parsed|
    ensures SetProperties(ctx, start, Somes(parsed[..i + 1])) ==
      if parsed[i].Some? then SetProperty(ctx, SetProperties(ctx, start, Somes(parsed[..i])), parsed[i].value.0, parsed[i].value.1)
      else SetProperties(ctx, start, Somes(parsed[..i]))
  {
    assert parsed[..i + 1] == parsed[..i] + [parsed[i]];
    SomesStep(parsed[..i], parsed[i]);
    if parsed[i].Some? {
      SetPropertiesSnoc(ctx, start, Somes(parsed[..i]), parsed[i].value);
    } else {
      assert Somes(parsed[..i]) + [] == Somes(parsed[..i]);
    }
  }

  /** What `ParseDeclaration` makes of each piece. */
  function ParsedPieces(pieces: seq<string>): (r: seq<Option<(string, string)>>)
    ensures |r| == |pieces|
  {
    seq(|pieces|, i requires 0 <= i < |pieces| => ParseDeclaration(pieces[i]))
  }

  /** The declarations a declaration string sets, in order: every one has a non-empty name
      and a non-empty value. */
  function Declarations(text: string): (r: seq<(string, string)>)
    ensures forall d :: d in r ==> d.0 != "" && d.1 != ""
  {
    var pieces := TrimmedPieces(text, ';');
    ParsedNonEmpty(pieces);
    Somes(ParsedPieces(pieces))
  }

  lemma ParsedNonEmpty(pieces: seq<string>)
    ensures forall d: (string, string) :: d in Somes(ParsedPieces(pieces)) ==> d.0 != "" && d.1 != ""
  {
    var parsed := ParsedPieces(pieces);
    forall d: (string, string) | d in Somes(parsed)
      ensures d.0 != "" && d.1 != ""
    {
      assert Some(d) in parsed;
      var k :| 0 <= k < |parsed| && parsed[k] == Some(d);
      assert ParseDeclaration(pieces[k]) == Some(d);
    }
  }

  /** The declaration text `name:value;name:value…` of a list of declarations. */
  function DeclarationText(decls: seq<(string, string)>): string {
    Join(DeclarationStrings(decls), ";")
  }

  function DeclarationStrings(decls: seq<(string, string)>): (r: seq<string>)
    ensures |r| == |decls| && forall i :: 0 <= i < |r| ==> r[i] == decls[i].0 + ":" + decls[i].1
  {
    seq(|decls|, i requires 0 <= i < |decls| => decls[i].0 + ":" + decls[i].1)
  }

  /** A declaration the parser reads back as it was written: a normalised, trimmed name with
      no `:` or `;`, and a trimmed, non-empty value with no `;`. */
  predicate PlainDeclaration(d: (string, string)) {
    d.0 != "" && d.1 != "" &&
    ':' !in d.0 && ';' !in d.0 && ';' !in d.1 &&
    !IsJsSpace(d.0[0]) && !IsJsSpace(d.0[|d.0| - 1]) &&
    !IsJsSpace(d.1[0]) && !IsJsSpace(d.1[|d.1| - 1]) &&
    NormalizeCssPropName(d.0) == d.0
  }

  lemma ParsePlainDeclaration(d: (string, string))
    requires PlainDeclaration(d)
    ensures ParseDeclaration(d.0 + ":" + d.1) == Some(d)
  {
    FirstColon(d.0, d.1);
    SplitPlainDeclaration(d);
  }

  lemma FirstColon(name: string, value: string)
    requires ':' !in name
    ensures IndexOfChar(name + ":" + value, ':') == Some(|name|)
  {
    var decl := name + ":" + value;
    assert decl[|name|] == ':';
    assert decl[..|name|] == name;
  }

  lemma SplitPlainDeclaration(d: (string, string))
    requires PlainDeclaration(d)
    ensures SplitDeclaration(d.0 + ":" + d.1, |d.0|) == Some(d)
  {
    var decl := d.0 + ":" + d.1;
    assert decl[..|d.0|] == d.0 && decl[|d.0| + 1..] == d.1;
    TrimmedIsFixed(d.0);
    TrimmedIsFixed(d.1);
  }

  /** Writing declarations out as `name:value;…` and reading them back gives the same
      declarations, in the same order. */
  lemma DeclarationTextRoundTrip(decls: seq<(string, string)>)
    requires |decls| > 0
    requires forall i :: 0 <= i < |decls| ==> PlainDeclaration(decls[i])
    ensures Declarations(DeclarationText(decls)) == decls
  {
    PiecesOfText(decls);
    ParsedStrings(decls);
    SomesOfAll(decls);
  }

  /** The pieces of a written-out declaration list are its `name:value` strings. */
  lemma PiecesOfText(decls: seq<(string, string)>)
    requires |decls| > 0
    requires forall i :: 0 <= i < |decls| ==> PlainDeclaration(decls[i])
    ensures TrimmedPieces(DeclarationText(decls), ';') == DeclarationStrings(decls)
  {
    var parts := DeclarationStrings(decls);
    forall i | 0 <= i < |parts|
      ensures ';' !in parts[i] && Unpadded(parts[i])
    {
      PlainPiece(decls[i]);
    }
    SplitJoin(parts, ';');
    TrimAllUnpadded(parts);
    NonBlankKeepsAll(parts);
  }

  lemma ParsedStrings(decls: seq<(string, string)>)
    requires forall i :: 0 <= i < |decls| ==> PlainDeclaration(decls[i])
    ensures ParsedPieces(DeclarationStrings(decls)) == AllSome(decls)
  {
    forall i | 0 <= i < |decls|
      ensures ParseDeclaration(decls[i].0 + ":" + decls[i].1) == Some(decls[i])
    {
      ParsePlainDeclaration(decls[i]);
    }
  }


  lemma PlainPiece(d: (string, string))
    requires PlainDeclaration(d)
    ensures ';' !in d.0 + ":" + d.1 && Unpadded(d.0 + ":" + d.1)
  {
    var p := d.0 + ":" + d.1;
    assert p[0] == d.0[0] && p[|p| - 1] == d.1[|d.1| - 1];
  }

  /** The `setStyle` operation. */
  function StyleEffect(ctx: Context, st: Live, el: nat, prop: Json, value: Json): (r: Live)
    requires Fits(ctx, st) && el < |st.nodes|
    ensures Fits(ctx, r) && r.issued == st.issued && r.log == st.log
    ensures r.nodes == st.nodes[el := st.nodes[el].(style := r.nodes[el].style)]
  {
    var n := st.nodes[el];
    var style :=
      if Truthy(prop) then SetProperty(ctx, n.style, PropName(prop), DomString(value))
      else if Truthy(value) && (value.JObj? || value.JArr?) then SetProperties(ctx, n.style, EntryDeclarations(Entries(value)))
      else if value.JStr? then SetProperties(ctx, n.style, Declarations(value.s))
      else n.style;
    st.(nodes := st.nodes[el := n.(style := style)])
  }

  /** `normalizeCssPropName(edit.prop)` as `setProperty` receives it: a non-string `prop` is
      passed through and converted by `String`. */
  function PropName(prop: Json): string {
    if prop.JStr? then NormalizeCssPropName(prop.s) else ToJsString(prop)
  }

  /** The `setProperty` calls an object value's entries make. */
  function EntryDeclarations(entries: seq<(string, Json)>): (r: seq<(string, string)>)
    ensures |r| == |entries|
    ensures forall i :: 0 <= i < |r| ==> r[i] == (NormalizeCssPropName(entries[i].0), DomString(entries[i].1))
  {
    seq(|entries|, i requires 0 <= i < |entries| => (NormalizeCssPropName(entries[i].0), DomString(entries[i].1)))
  }

  /** The warning logged for an edit whose `op` is none of the four. */
  function UnknownOpWarning(edit: Json): Json {
    JObj([("warn", JStr("unknown op")), ("edit", edit)])
  }

  /** `edit.op || edit.operation` */
  function OpOf(edit: Json): Json {
    var op := OrNull(Get(edit, "op"));
    if Truthy(op) then op else OrNull(Get(edit, "operation"))
  }

  function ValueOf(edit: Json): Json {
    OrNull(Get(edit, "value"))
  }

  /** One iteration of the executor's loop. Destructuring a `null` edit and trimming a
      non-string path throw. */
  function EditEffect(ctx: Context, st: Live, edit: Json): (r: Outcome)
    requires ValidContext(ctx) && Fits(ctx, st)
    ensures Fits(ctx, r.state)
    ensures r.thrown ==> r.state == st
  {
    if edit == JNull then Outcome(st, true)
    else
      match Target(ctx, st.nodes, OrNull(Get(edit, "section")), OrNull(Get(edit, "path")))
      case Err(_) => Outcome(st, true)
      case Ok(None) => Outcome(st, false)
      case Ok(Some(el)) =>
        var op := OpOf(edit);
        if op == JStr("setText") then
          Outcome(st.(nodes := WithContent(st.nodes, el, TextContent(DomString(ValueOf(edit))), ctx.frame)), false)
        else if op == JStr("setHTML") then
          Outcome(st.(nodes := WithContent(st.nodes, el, InnerHtml(DomString(ValueOf(edit))), ctx.frame)), false)
        else if op == JStr("setAttr") then
          AttrEffect(ctx, st, el, OrNull(Get(edit, "attr")), ValueOf(edit))
        else if op == JStr("setStyle") then
          Outcome(StyleEffect(ctx, st, el, OrNull(Get(edit, "prop")), ValueOf(edit)), false)
        else
          Outcome(st.(log := st.log + [UnknownOpWarning(edit)]), false)
  }

  /** The edits applied one after another; the first one that throws ends the batch. */
  function ApplyAll(ctx: Context, st: Live, edits: seq<Json>): (r: Outcome)
    requires ValidContext(ctx) && Fits(ctx, st)
    ensures Fits(ctx, r.state)
  {
    if |edits| == 0 then Outcome(st, false)
    else
      var before := ApplyAll(ctx, st, edits[..|edits| - 1]);
      if before.thrown then before else EditEffect(ctx, before.state, edits[|edits| - 1])
  }

  /** `applyEditsToIframe(result)`: nothing happens unless `result.edits` is an array. */
  function ApplyPayload(ctx: Context, st: Live, result: Json): (r: Outcome)
    requires ValidContext(ctx) && Fits(ctx, st)
    ensures !Truthy(result) || !OrNull(Get(result, "edits")).JArr? ==> r == Outcome(st, false)
  {
    var edits := OrNull(Get(result, "edits"));
    if !Truthy(result) || !edits.JArr? then Outcome(st, false)
    else ApplyAll(ctx, st, edits.items)
  }

  // ---------------------------------------------------------------------------------------
  // Properties of the executor
  // ---------------------------------------------------------------------------------------

  /** An edit whose target is not found changes nothing and does not stop the batch. */
  lemma NoTargetNoMutation(ctx: Context, st: Live, edit: Json)
    requires ValidContext(ctx) && Fits(ctx, st) && edit != JNull
    requires Target(ctx, st.nodes, OrNull(Get(edit, "section")), OrNull(Get(edit, "path"))) == Ok(None)
    ensures EditEffect(ctx, st, edit) == Outcome(st, false)
  {
  }

  /** An edit with an unrecognised `op` that finds its target changes no node and adds
      exactly one warning to the log. */
  lemma UnknownOpWarnsOnce(ctx: Context, st: Live, edit: Json)
    requires ValidContext(ctx) && Fits(ctx, st) && edit != JNull
    requires Target(ctx, st.nodes, OrNull(Get(edit, "section")), OrNull(Get(edit, "path"))).Ok?
    requires Target(ctx, st.nodes, OrNull(Get(edit, "section")), OrNull(Get(edit, "path"))).value.Some?
    requires OpOf(edit) !in {JStr("setText"), JStr("setHTML"), JStr("setAttr"), JStr("setStyle")}
    ensures EditEffect(ctx, st, edit) == Outcome(st.(log := st.log + [UnknownOpWarning(edit)]), false)
  {
  }

  /** `setText` and `setHTML` put `value ?? ""` into the target and change no other node's
      attributes, style or content. */
  lemma ContentEdits(ctx: Context, st: Live, edit: Json, el: nat)
    requires ValidContext(ctx) && Fits(ctx, st) && edit != JNull
    requires Target(ctx, st.nodes, OrNull(Get(edit, "section")), OrNull(Get(edit, "path"))) == Ok(Some(el))
    requires OpOf(edit) == JStr("setText") || OpOf(edit) == JStr("setHTML")
    ensures var r := EditEffect(ctx, st, edit);
      !r.thrown && r.state.issued == st.issued && r.state.log == st.log &&
      r.state.nodes[el].content ==
        (if OpOf(edit) == JStr("setText") then TextContent(DomString(ValueOf(edit))) else InnerHtml(DomString(ValueOf(edit)))) &&
      forall i :: 0 <= i < |st.nodes| && i != el ==>
        r.state.nodes[i].attrs == st.nodes[i].attrs && r.state.nodes[i].style == st.nodes[i].style &&
        r.state.nodes[i].content == st.nodes[i].content
  {
  }

  /** Replacing an image's `src` removes every `<source>` of the picture around it (and only
      those), along with the lazy-loading attributes. */
  lemma ReplaceImageSources(ctx: Context, st: Live, el: nat, i: nat)
    requires ValidContext(ctx) && Fits(ctx, st) && el < |st.nodes| && i < |st.nodes| && i != el
    ensures var n := st.nodes[el].(attrs := st.nodes[el].attrs - LazyImageAttrs);
      var cleared := st.nodes[el := n];
      var picture := ClosestPicture(ctx, cleared, el, |cleared|);
      ReplaceImage(ctx, st, el).nodes[i] ==
        if picture.Some? && SourceIn(ctx, cleared, picture.value, i) then st.nodes[i].(attached := false) else st.nodes[i]
  {
  }

  /** Edits are applied strictly in list order: a batch is its first part followed by the
      rest, unless the first part threw. */
  lemma {:induction false} ApplyAllAppend(ctx: Context, st: Live, xs: seq<Json>, ys: seq<Json>)
    requires ValidContext(ctx) && Fits(ctx, st)
    ensures var first := ApplyAll(ctx, st, xs);
      ApplyAll(ctx, st, xs + ys) == if first.thrown then first else ApplyAll(ctx, first.state, ys)
  {
    if |ys| == 0 {
      assert xs + ys == xs;
    } else {
      var ys' := ys[..|ys| - 1];
      assert (xs + ys)[..|xs + ys| - 1] == xs + ys';
      assert (xs + ys)[|xs + ys| - 1] == ys[|ys| - 1];
      ApplyAllAppend(ctx, st, xs, ys');
      var first := ApplyAll(ctx, st, xs);
      if first.thrown {
        ThrownStays(ctx, st, xs, ys);
      }
    }
  }

  /** Once an edit has thrown, the edits after it are not applied. */
  lemma {:induction false} ThrownStays(ctx: Context, st: Live, xs: seq<Json>, ys: seq<Json>)
    requires ValidContext(ctx) && Fits(ctx, st)
    requires ApplyAll(ctx, st, xs).thrown
    ensures ApplyAll(ctx, st, xs + ys) == ApplyAll(ctx, st, xs)
  {
    if |ys| > 0 {
      var ys' := ys[..|ys| - 1];
      assert (xs + ys)[..|xs + ys| - 1] == xs + ys';
      ThrownStays(ctx, st, xs, ys');
    } else {
      assert xs + ys == xs;
    }
  }

  /** A `setAttr` edit whose attribute name `setAttribute` rejects throws, and the edits
      after it are not applied: the batch ends with the page as the earlier edits left it. */
  lemma InvalidAttrNameEndsBatch(ctx: Context, st: Live, done: seq<Json>, edit: Json, rest: seq<Json>, el: nat)
    requires ValidContext(ctx) && Fits(ctx, st)
    requires var before := ApplyAll(ctx, st, done);
      !before.thrown && edit != JNull &&
      Target(ctx, before.state.nodes, OrNull(Get(edit, "section")), OrNull(Get(edit, "path"))) == Ok(Some(el))
    requires OpOf(edit) == JStr("setAttr")
    requires var attr := OrNull(Get(edit, "attr"));
      attr.JStr? && attr.s != "" && el < |ctx.frame| && !PicsumAttr(ctx, el, attr.s) && !ctx.validName(attr.s)
    ensures ApplyAll(ctx, st, done + [edit] + rest) == Outcome(ApplyAll(ctx, st, done).state, true)
  {
    ApplyAllAppend(ctx, st, done, [edit]);
    assert ApplyAll(ctx, st, done + [edit]).thrown;
    ThrownStays(ctx, st, done + [edit], rest);
  }

  // ---------------------------------------------------------------------------------------
  // The executor, updating the page in place
  // ---------------------------------------------------------------------------------------

  class LiveDocument {
    var nodes: seq<NodeState>
    var issued: nat
    var log: seq<Json>
    const ctx: Context

    ghost predicate Valid()
      reads this
    {
      ValidContext(ctx) && |nodes| == |ctx.frame|
    }

    function State(): Live
      reads this
    {
      Live(nodes, issued, log)
    }

    constructor(ctx: Context, nodes: seq<NodeState>)
      requires ValidContext(ctx) && |nodes| == |ctx.frame|
      ensures Valid() && this.ctx == ctx && State() == Live(nodes, 0, [])
    {
      this.ctx := ctx;
      this.nodes := nodes;
      this.issued := 0;
      this.log := [];
    }

    /** The path trimmed, the section scoping, the query and the raw-path retry. */
    method Resolve(section: Json, path: Json) returns (el: Result<Option<nat>, string>)
      requires Valid()
      ensures el == Target(ctx, nodes, section, path)
    {
      var trimmed := PathSelector(path);
      if trimmed.Err? {
        return Err(trimmed.error);
      }
      TargetFound(ctx, nodes, section, path);
      var selector := Scope(section, trimmed.value);
      var found := if selector.Some? then ctx.query(nodes, selector.value) else None;
      if found.None? && Truthy(path) {
        found := ctx.query(nodes, path.s);
      }
      return Ok(found);
    }

    /** The reassignments of `selector` when a section is given. */
    method Scope(section: Json, trimmed: Option<string>) returns (selector: Option<string>)
      ensures selector == ScopedSelector(ctx, section, trimmed)
    {
      selector := trimmed;
      if Truthy(section) {
        if selector.Some? {
          var idPrefix := "#" + ToJsString(section);
          if StartsWith(selector.value, idPrefix) {
            var rest := Trim(selector.value[|idPrefix|..]);
            if StartsWith(rest, ">") {
              rest := Trim(rest[1..]);
            }
            selector := Some(if rest != "" then SectionSelector(ctx, section) + " " + rest else SectionSelector(ctx, section));
          } else if !StartsWith(selector.value, "[data-section=") {
            selector := Some(SectionSelector(ctx, section) + " " + selector.value);
          }
        } else {
          selector := Some(SectionSelector(ctx, section));
        }
      }
    }

    /** `picture.querySelectorAll('source').forEach(s => s.remove())`: the list is taken
        before the first removal. */
    method RemoveSources(picture: nat)
      requires Valid()
      modifies this
      ensures Valid() && issued == old(issued) && log == old(log)
      ensures nodes == WithoutSources(ctx, old(nodes), picture)
    {
      var before := nodes;
      for i := 0 to |before|
        invariant issued == old(issued) && log == old(log)
        invariant |nodes| == |before|
        invariant forall k :: 0 <= k < |before| ==>
          nodes[k] == if k < i && SourceIn(ctx, before, picture, k) then before[k].(attached := false) else before[k]
      {
        if SourceIn(ctx, before, picture, i) {
          nodes := nodes[i := nodes[i].(attached := false)];
        }
      }
    }

    method SetAttr(el: nat, attr: Json, value: Json) returns (thrown: bool)
      requires Valid() && el < |nodes|
      modifies this
      ensures Valid() && Outcome(State(), thrown) == AttrEffect(ctx, old(State()), el, attr, value)
    {
      if !Truthy(attr) {
        return false;
      }
      if !attr.JStr? {
        return true;
      }
      var name := AsciiLower(attr.s);
      if name == "src" && ctx.frame[el].tag == "img" {
        var url := PicsumUrl(ctx.token(issued));
        issued := issued + 1;
        nodes := nodes[el := nodes[el].(attrs := nodes[el].attrs - LazyImageAttrs)];
        var picture := ClosestPicture(ctx, nodes, el, |nodes|);
        if picture.Some? {
          RemoveSources(picture.value);
        }
        nodes := nodes[el := nodes[el].(attrs := nodes[el].attrs["src" := url])];
      } else if name == "srcset" && ctx.frame[el].tag == "img" {
        var url := PicsumUrl(ctx.token(issued));
        issued := issued + 1;
        nodes := nodes[el := nodes[el].(attrs := nodes[el].attrs["src" := url])];
        nodes := nodes[el := nodes[el].(attrs := nodes[el].attrs - {"srcset", "sizes"})];
      } else {
        if !ctx.validName(attr.s) {
          return true;
        }
        nodes := nodes[el := nodes[el].(attrs := nodes[el].attrs[name := DomString(value)])];
      }
      return false;
    }

    /** `el.style.setProperty(name, value)` */
    method StyleSetProperty(el: nat, name: string, value: string)
      requires Valid() && el < |nodes|
      modifies this
      ensures Valid() && issued == old(issued) && log == old(log)
      ensures nodes == old(nodes)[el := old(nodes)[el].(style := SetProperty(ctx, old(nodes)[el].style, name, value))]
    {
      nodes := nodes[el := nodes[el].(style := SetProperty(ctx, nodes[el].style, name, value))];
    }

    /** The `for … of Object.entries(value)` loop: one `setProperty` call per entry. */
    method SetPropertiesOf(el: nat, decls: seq<(string, string)>)
      requires Valid() && el < |nodes|
      modifies this
      ensures Valid() && issued == old(issued) && log == old(log)
      ensures nodes == old(nodes)[el := old(nodes)[el].(style := SetProperties(ctx, old(nodes)[el].style, decls))]
    {
      ghost var start := nodes[el].style;
      for i := 0 to |decls|
        invariant Valid() && issued == old(issued) && log == old(log)
        invariant nodes == old(nodes)[el := nodes[el]]
        invariant nodes[el] == old(nodes)[el].(style := SetProperties(ctx, start, decls[..i]))
      {
        SetPropertiesSnoc(ctx, start, decls[..i], decls[i]);
        assert decls[..i + 1] == decls[..i] + [decls[i]];
        StyleSetProperty(el, decls[i].0, decls[i].1);
      }
      assert decls[..|decls|] == decls;
    }

    /** A declaration string: split, trimmed, filtered and each piece read as a declaration;
        then the `forEach` sets the declarations that were read. */
    method SetDeclarationText(el: nat, text: string)
      requires Valid() && el < |nodes|
      modifies this
      ensures Valid() && issued == old(issued) && log == old(log)
      ensures nodes == old(nodes)[el := old(nodes)[el].(style := SetProperties(ctx, old(nodes)[el].style, Declarations(text)))]
    {
      SetParsedDeclarations(el, ParsedPieces(TrimmedPieces(text, ';')));
    }

    /** The body of the `forEach`: a piece read as a declaration is set, any other is skipped. */
    method SetParsedDeclarations(el: nat, parsed: seq<Option<(string, string)>>)
      requires Valid() && el < |nodes|
      modifies this
      ensures Valid() && issued == old(issued) && log == old(log)
      ensures nodes == old(nodes)[el := old(nodes)[el].(style := SetProperties(ctx, old(nodes)[el].style, Somes(parsed)))]
    {
      ghost var start := nodes[el].style;
      for i := 0 to |parsed|
        invariant Valid() && issued == old(issued) && log == old(log)
        invariant nodes == old(nodes)[el := old(nodes)[el].(style := SetProperties(ctx, start, Somes(parsed[..i])))]
      {
        SetParsedStep(el, start, parsed, i);
      }
      assert parsed[..|parsed|] == parsed;
    }

    /** One iteration of the `forEach`: the style grows by the pieces read so far plus this one. */
    method SetParsedStep(el: nat, ghost start: map<string, string>, parsed: seq<Option<(string, string)>>, i: nat)
      requires Valid() && el < |nodes| && i < |parsed|
      requires nodes[el].style == SetProperties(ctx, start, Somes(parsed[..i]))
      modifies this
      ensures Valid() && issued == old(issued) && log == old(log)
      ensures nodes == old(nodes)[el := old(nodes)[el].(style := SetProperties(ctx, start, Somes(parsed[..i + 1])))]
    {
      DeclarationStep(ctx, start, parsed, i);
      SetIfParsed(el, parsed[i]);
    }

    /** The callback of the `forEach`. */
    method SetIfParsed(el: nat, d: Option<(string, string)>)
      requires Valid() && el < |nodes|
      modifies this
      ensures Valid() && issued == old(issued) && log == old(log)
      ensures nodes == old(nodes)[el := old(nodes)[el].(style :=
        if d.Some? then SetProperty(ctx, old(nodes)[el].style, d.value.0, d.value.1) else old(nodes)[el].style)]
    {
      if d.Some? {
        StyleSetProperty(el, d.value.0, d.value.1);
      }
    }

    method SetStyle(el: nat, prop: Json, value: Json)
      requires Valid() && el < |nodes|
      modifies this
      ensures Valid() && State() == StyleEffect(ctx, old(State()), el, prop, value)
    {
      if Truthy(prop) {
        nodes := nodes[el := nodes[el].(style := SetProperty(ctx, nodes[el].style, PropName(prop), DomString(value)))];
      } else if Truthy(value) && (value.JObj? || value.JArr?) {
        SetPropertiesOf(el, EntryDeclarations(Entries(value)));
      } else if value.JStr? {
        SetDeclarationText(el, value.s);
      }
    }

    /** One iteration of the loop in `applyEditsToIframe`. */
    method ApplyEdit(edit: Json) returns (thrown: bool)
      requires Valid()
      modifies this
      ensures Valid() && Outcome(State(), thrown) == EditEffect(ctx, old(State()), edit)
    {
      if edit == JNull {
        return true;
      }
      var target := Resolve(OrNull(Get(edit, "section")), OrNull(Get(edit, "path")));
      if target.Err? {
        return true;
      }
      if target.value.None? {
        return false;
      }
      var el := target.value.value;
      var op := OpOf(edit);
      thrown := false;
      if op == JStr("setText") {
        nodes := WithContent(nodes, el, TextContent(DomString(ValueOf(edit))), ctx.frame);
      } else if op == JStr("setHTML") {
        nodes := WithContent(nodes, el, InnerHtml(DomString(ValueOf(edit))), ctx.frame);
      } else if op == JStr("setAttr") {
        thrown := SetAttr(el, OrNull(Get(edit, "attr")), ValueOf(edit));
      } else if op == JStr("setStyle") {
        SetStyle(el, OrNull(Get(edit, "prop")), ValueOf(edit));
      } else {
        log := log + [UnknownOpWarning(edit)];
      }
    }

    /** `applyEditsToIframe(result)` */
    method ApplyEditsToIframe(result: Json) returns (thrown: bool)
      requires Valid()
      modifies this
      ensures Valid() && Outcome(State(), thrown) == ApplyPayload(ctx, old(State()), result)
    {
      var edits := OrNull(Get(result, "edits"));
      if !Truthy(result) || !edits.JArr? {
        return false;
      }
      var items := edits.items;
      for i := 0 to |items|
        invariant Valid()
        invariant ApplyAll(ctx, old(State()), items[..i]) == Outcome(State(), false)
      {
        assert items[..i + 1][..i] == items[..i];
        assert items[..i + 1][i] == items[i];
        thrown := ApplyEdit(items[i]);
        if thrown {
          ThrownStays(ctx, old(State()), items[..i + 1], items[i + 1..]);
          assert items[..i + 1] + items[i + 1..] == items;
          return;
        }
      }
      assert items[..|items|] == items;
      thrown := false;
    }
  }
}
