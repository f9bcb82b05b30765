/**
  The pure helpers of the offline optimiser: the canonical form of an inline style, the
  selector safelist, the simplified selector used for matching, the CSS purge over a rule
  tree, and the rewrite of every link to `#` in the loaded document.
*/
module Optimize {
  import opened Wrappers
  import opened Text
  import opened Sorting
  import opened Dom

  // ---------------------------------------------------------------------------------------
  // normalizeCssDeclarations (src/optimize.js:29-40)
  // ---------------------------------------------------------------------------------------

  /** `const [prop, ...rest] = decl.split(":")` written back as `prop.trim() + ":" +
      rest.join(":").trim()`. */
  function NormalizeDeclaration(decl: string): string {
    var parts := Split(decl, ':');
    Trim(parts[0]) + ":" + Trim(Join(parts[1..], ":"))
  }

  /** The declarations of a style split on `;`, trimmed, blank ones dropped, each written
      in normal form, sorted and joined with `;`. */
  function NormalizeCssDeclarations(styleText: string): string {
    Join(Sort(Map(NormalizeDeclaration, TrimmedPieces(styleText, ';'))), ";")
  }

  /** A declaration is split at its first colon: later colons stay in the value. */
  lemma NormalizeSplitsAtFirstColon(name: string, value: string)
    requires ':' !in name
    ensures NormalizeDeclaration(name + ":" + value) == Trim(name) + ":" + Trim(value)
  {
    SplitPrefix(name, value, ':');
    assert name + ":" + value == name + [':'] + value;
    JoinSplit(value, ':');
  }

  /** Without a colon the whole piece is the name and the value is empty. */
  lemma NormalizeWithoutColon(decl: string)
    requires ':' !in decl
    ensures NormalizeDeclaration(decl) == Trim(decl) + ":"
  {
    SplitNoSep(decl, ':');
    var parts := Split(decl, ':');
    assert parts[0] == decl && parts[1..] == [];
    assert Join(parts[1..], ":") == "";
    assert Trim("") == "";
  }

  /** A declaration in normal form: no `;`, no white space at either end, its own normal form. */
  predicate Normal(d: string) {
    ';' !in d && Unpadded(d) && NormalizeDeclaration(d) == d
  }

  lemma NormalizedIsNormal(decl: string)
    requires ';' !in decl
    ensures Normal(NormalizeDeclaration(decl))
  {
    match IndexOfChar(decl, ':')
    case None =>
      NormalizedIsNormalNoColon(decl);
    case Some(i) =>
      NormalizedIsNormalAt(decl, i);
  }

  lemma NormalizedIsNormalNoColon(decl: string)
    requires ';' !in decl && ':' !in decl
    ensures Normal(NormalizeDeclaration(decl))
  {
    var d := Trim(decl) + ":";
    assert Trim("") == "";
    assert d == Trim(decl) + ":" + Trim("");
    NormalFrom(decl, "");
    assert Normal(d);
    NormalizeWithoutColon(decl);
  }

  lemma NormalizedIsNormalAt(decl: string, i: nat)
    requires ';' !in decl && i < |decl| && decl[i] == ':' && ':' !in decl[..i]
    ensures Normal(NormalizeDeclaration(decl))
  {
    var name := decl[..i];
    var value := decl[i + 1..];
    assert decl == name + ":" + value;
    assert ';' !in name && ';' !in value by {
      assert forall c :: c in name || c in value ==> c in decl;
    }
    NormalizeSplitsAtFirstColon(name, value);
    NormalFrom(name, value);
  }

  lemma NormalFrom(name: string, value: string)
    requires ':' !in name && ';' !in name && ';' !in value
    ensures Normal(Trim(name) + ":" + Trim(value))
  {
    UnpaddedAround(Trim(name), Trim(value));
    NormalFixed(name, value);
    TrimKeepsOut(name, ';');
    TrimKeepsOut(value, ';');
  }

  lemma NormalFixed(name: string, value: string)
    requires ':' !in name
    ensures NormalizeDeclaration(Trim(name) + ":" + Trim(value)) == Trim(name) + ":" + Trim(value)
  {
    TrimKeepsOut(name, ':');
    NormalizeSplitsAtFirstColon(Trim(name), Trim(value));
    TrimIdempotent(name);
    TrimIdempotent(value);
  }

  lemma UnpaddedAround(n: string, v: string)
    requires n == [] || (!IsJsSpace(n[0]) && !IsJsSpace(n[|n| - 1]))
    requires v == [] || (!IsJsSpace(v[0]) && !IsJsSpace(v[|v| - 1]))
    ensures Unpadded(n + ":" + v)
  {
    var d := n + ":" + v;
    assert d[0] == if n == "" then ':' else n[0];
    assert d[|d| - 1] == if v == "" then ':' else v[|v| - 1];
  }

  /** Normalising a style twice gives what normalising it once gave. */
  lemma NormalizeCssDeclarationsIdempotent(styleText: string)
    ensures NormalizeCssDeclarations(NormalizeCssDeclarations(styleText)) == NormalizeCssDeclarations(styleText)
  {
    var pieces := TrimmedPieces(styleText, ';');
    TrimmedPiecesShape(styleText, ';');
    SortedAreNormal(pieces);
    SortSorted(Map(NormalizeDeclaration, pieces));
    NormalizeSortedNormal(Sort(Map(NormalizeDeclaration, pieces)));
  }

  /** A sorted list of declarations in normal form, written out, normalises to itself. */
  lemma NormalizeSortedNormal(decls: seq<string>)
    requires Sorted(decls) && forall i :: 0 <= i < |decls| ==> Normal(decls[i])
    ensures NormalizeCssDeclarations(Join(decls, ";")) == Join(decls, ";")
  {
    if |decls| == 0 {
      assert Join(decls, ";") == "";
      assert Split("", ';') == [""];
      assert TrimmedPieces("", ';') == [];
    } else {
      PiecesOfNormal(decls);
      MapFixed(decls);
      SortOfSorted(decls);
    }
  }

  lemma PiecesOfNormal(decls: seq<string>)
    requires |decls| > 0 && forall i :: 0 <= i < |decls| ==> Normal(decls[i])
    ensures TrimmedPieces(Join(decls, ";"), ';') == decls
  {
    SplitJoin(decls, ';');
    TrimAllUnpadded(decls);
    NonBlankKeepsAll(decls);
  }

  lemma MapFixed(decls: seq<string>)
    requires forall i :: 0 <= i < |decls| ==> Normal(decls[i])
    ensures Map(NormalizeDeclaration, decls) == decls
  {
  }

  /** Every declaration of the sorted list is in normal form. */
  lemma SortedAreNormal(pieces: seq<string>)
    requires forall i :: 0 <= i < |pieces| ==> ';' !in pieces[i]
    ensures forall i :: 0 <= i < |Sort(Map(NormalizeDeclaration, pieces))| ==> Normal(Sort(Map(NormalizeDeclaration, pieces))[i])
  {
    AllNormalized(pieces);
    SortKeepsNormal(Map(NormalizeDeclaration, pieces));
  }

  lemma AllNormalized(pieces: seq<string>)
    requires forall i :: 0 <= i < |pieces| ==> ';' !in pieces[i]
    ensures forall k :: 0 <= k < |pieces| ==> Normal(Map(NormalizeDeclaration, pieces)[k])
  {
    forall k | 0 <= k < |pieces|
      ensures Normal(Map(NormalizeDeclaration, pieces)[k])
    {
      NormalizedIsNormal(pieces[k]);
    }
  }

  lemma SortKeepsNormal(xs: seq<string>)
    requires forall k :: 0 <= k < |xs| ==> Normal(xs[k])
    ensures forall i :: 0 <= i < |Sort(xs)| ==> Normal(Sort(xs)[i])
  {
    var sorted := Sort(xs);
    forall i | 0 <= i < |sorted|
      ensures Normal(sorted[i])
    {
      assert sorted[i] in multiset(xs);
      var k :| 0 <= k < |xs| && xs[k] == sorted[i];
    }
  }

  /** Because of the sort, the order in which two groups of declarations are written does
      not matter. */
  lemma NormalizeCssDeclarationsOrderFree(first: string, second: string)
    ensures NormalizeCssDeclarations(first + ";" + second) == NormalizeCssDeclarations(second + ";" + first)
  {
    var pa := TrimmedPieces(first, ';');
    var pb := TrimmedPieces(second, ';');
    assert first + ";" + second == first + [';'] + second;
    assert second + ";" + first == second + [';'] + first;
    TrimmedPiecesAppend(first, second, ';');
    TrimmedPiecesAppend(second, first, ';');
    MapAppend(NormalizeDeclaration, pa, pb);
    MapAppend(NormalizeDeclaration, pb, pa);
    SortPermutation(Map(NormalizeDeclaration, pa) + Map(NormalizeDeclaration, pb), Map(NormalizeDeclaration, pb) + Map(NormalizeDeclaration, pa));
  }

  // ---------------------------------------------------------------------------------------
  // isSelectorSafelisted and simplifySelectorForMatch (src/optimize.js:92-106)
  // ---------------------------------------------------------------------------------------

  /** Selectors that name a state or script hook are always kept. */
  predicate IsSelectorSafelisted(selector: string) {
    Contains(selector, ".js-") || Contains(selector, ".is-") || Contains(selector, ".active")
  }

  /** A selector that contains a safelisted one (as a compound or a descendant) is
      safelisted too. */
  lemma SafelistedWithin(pre: string, selector: string, post: string)
    ensures IsSelectorSafelisted(selector) ==> IsSelectorSafelisted(pre + selector + post)
  {
    if Contains(selector, ".js-") {
      ContainsWithin(pre, selector, post, ".js-");
    } else if Contains(selector, ".is-") {
      ContainsWithin(pre, selector, post, ".is-");
    } else if Contains(selector, ".active") {
      ContainsWithin(pre, selector, post, ".active");
    }
  }

  /** `s.replace(/\s+/g, " ")`: every run of white space becomes one space. */
  function CollapseSpaces(s: string): (r: string)
    ensures |r| <= |s|
    ensures r == [] <==> s == []
    ensures r != [] ==> (r[0] == ' ' <==> IsJsSpace(s[0]))
    ensures Collapsed(r)
    decreases |s|
  {
    if |s| == 0 then []
    else if IsJsSpace(s[0]) then
      var rest := TrimStart(s[1..]);
      var tail := CollapseSpaces(rest);
      assert tail != [] ==> !IsJsSpace(tail[0]);
      " " + tail
    else
      var tail := CollapseSpaces(s[1..]);
      [s[0]] + tail
  }

  /** The only white space left is single spaces. */
  predicate Collapsed(s: string) {
    forall i :: 0 <= i < |s| && IsJsSpace(s[i]) ==> s[i] == ' ' && (i + 1 < |s| ==> !IsJsSpace(s[i + 1]))
  }

  /** The characters other than white space, in order. */
  function Visible(s: string): string {
    if |s| == 0 then []
    else (if IsJsSpace(s[0]) then [] else [s[0]]) + Visible(s[1..])
  }

  /** Collapsing white space keeps every other character, in order. */
  lemma {:induction false} CollapseKeepsVisible(s: string)
    ensures Visible(CollapseSpaces(s)) == Visible(s)
    decreases |s|
  {
    if |s| > 0 {
      if IsJsSpace(s[0]) {
        var rest := TrimStart(s[1..]);
        CollapseKeepsVisible(rest);
        SpacesInvisible(s[1..], |s[1..]| - |rest|);
        assert (" " + CollapseSpaces(rest))[1..] == CollapseSpaces(rest);
      } else {
        CollapseKeepsVisible(s[1..]);
        assert ([s[0]] + CollapseSpaces(s[1..]))[1..] == CollapseSpaces(s[1..]);
      }
    }
  }

  /** Leading white space contributes nothing visible. */
  lemma {:induction false} SpacesInvisible(s: string, n: nat)
    requires n <= |s| && forall i :: 0 <= i < n ==> IsJsSpace(s[i])
    ensures Visible(s) == Visible(s[n..])
  {
    if n > 0 {
      SpacesInvisible(s[1..], n - 1);
      assert s[1..][n - 1..] == s[n..];
    }
  }

  lemma CollapsedSlice(s: string, lo: nat, hi: nat)
    requires Collapsed(s) && lo <= hi <= |s|
    ensures Collapsed(s[lo..hi])
  {
    var t := s[lo..hi];
    forall i | 0 <= i < |t| && IsJsSpace(t[i])
      ensures t[i] == ' ' && (i + 1 < |t| ==> !IsJsSpace(t[i + 1]))
    {
      assert t[i] == s[lo + i];
      if i + 1 < |t| {
        assert t[i + 1] == s[lo + i + 1];
      }
    }
  }

  lemma CollapsedTrim(s: string)
    requires Collapsed(s)
    ensures Collapsed(Trim(s))
  {
    var t := TrimStart(s);
    CollapsedSlice(s, |s| - |t|, |s|);
    CollapsedSlice(t, 0, |TrimEnd(t)|);
  }

  /** The two regular-expression deletions (`:not(...)` groups, then pseudo-classes and
      pseudo-elements) are an opaque `strip`; the spacing clean-up and the fallback are
      modelled. */
  function SimplifySelectorForMatch(strip: string -> string, selector: string): (r: string)
    ensures selector != "" ==> r != ""
    ensures r == selector || (r != "" && r == Trim(r) && Collapsed(r))
  {
    var collapsed := CollapseSpaces(strip(selector));
    var s := Trim(collapsed);
    CollapsedTrim(collapsed);
    TrimIdempotent(collapsed);
    if s != "" then s else selector
  }

  // ---------------------------------------------------------------------------------------
  // processContainer (src/optimize.js:108-117, 148-183)
  // ---------------------------------------------------------------------------------------

  /** The postcss nodes the purge meets. */
  datatype CssNode =
    | Rule(selector: string, body: seq<CssNode>)
    | AtRule(name: string, params: string, nodes: seq<CssNode>)
    | Decl(prop: string, value: string)
    | Comment(text: string)

  /** What the purge asks of the outside world.
      - `strip`: the regular-expression part of `simplifySelectorForMatch`.
      - `count(s)`: how many elements `$(s)` selects in the page; `None` when cheerio throws.
      - `comma(s)`: postcss's `rule.selectors`, the selector list split at top-level commas. */
  datatype PurgeEnv = PurgeEnv(
    strip: string -> string,
    count: string -> Option<nat>,
    comma: string -> seq<string>)

  /** `selectorMatchesDom`: a selector cheerio cannot handle counts as matching. */
  predicate SelectorMatchesDom(env: PurgeEnv, selector: string) {
    match env.count(SimplifySelectorForMatch(env.strip, selector))
    case None => true
    case Some(n) => n > 0
  }

  predicate Keep(env: PurgeEnv, selector: string) {
    IsSelectorSafelisted(selector) || SelectorMatchesDom(env, selector)
  }

  /** The selectors of a rule that survive: trimmed, non-empty, and safelisted or matching. */
  function KeptSelectors(env: PurgeEnv, selector: string): (r: seq<string>)
    ensures forall s :: s in r <==> s in TrimmedNonBlank(env.comma(selector)) && Keep(env, s)
  {
    Filter((s: string) => Keep(env, s), TrimmedNonBlank(env.comma(selector)))
  }

  /** What one node of a container adds to the output container. */
  function PurgeNode(env: PurgeEnv, node: CssNode): (r: seq<CssNode>)
    ensures |r| <= 1
    decreases node, 1
  {
    match node
    case Rule(selector, body) =>
      var kept := KeptSelectors(env, selector);
      if |kept| > 0 then [Rule(Join(kept, ", "), body)] else []
    case AtRule(name, params, nodes) =>
      if name == "media" then
        var inner := Purge(env, nodes);
        if |inner| > 0 then [AtRule(name, params, inner)] else []
      else [node]
    case Comment(_) => [node]
    case Decl(_, _) => []
  }

  /** The output of `processContainer` for a container holding `nodes`. */
  function Purge(env: PurgeEnv, nodes: seq<CssNode>): (r: seq<CssNode>)
    ensures |r| <= |nodes|
    decreases nodes, 0
  {
    if |nodes| == 0 then []
    else Purge(env, nodes[..|nodes| - 1]) + PurgeNode(env, nodes[|nodes| - 1])
  }

  /** `processContainer(container, outContainer)`: walks the container in order and appends
      what survives to the output. */
  method ProcessContainer(env: PurgeEnv, container: seq<CssNode>) returns (out: seq<CssNode>)
    ensures out == Purge(env, container)
    decreases container
  {
    out := [];
    for i := 0 to |container|
      invariant out == Purge(env, container[..i])
    {
      assert container[..i + 1][..i] == container[..i];
      var node := container[i];
      match node {
        case Rule(selector, body) =>
          var kept := KeptSelectors(env, selector);
          if |kept| > 0 {
            out := out + [Rule(Join(kept, ", "), body)];
          }
        case AtRule(name, params, nodes) =>
          if name == "media" {
            var inner := ProcessContainer(env, nodes);
            if |inner| > 0 {
              out := out + [AtRule(name, params, inner)];
            }
          } else {
            out := out + [node];
          }
        case Comment(_) =>
          out := out + [node];
        case Decl(_, _) =>
      }
    }
    assert container[..|container|] == container;
  }

  /** A rule survives exactly when one of its trimmed, non-empty selectors is safelisted or
      matches; it then keeps exactly those selectors (`KeptSelectors`), joined by `", "`, and
      its whole body. */
  lemma RuleSurvival(env: PurgeEnv, selector: string, body: seq<CssNode>)
    ensures PurgeNode(env, Rule(selector, body)) != [] <==>
      exists s :: s in TrimmedNonBlank(env.comma(selector)) && Keep(env, s)
    ensures PurgeNode(env, Rule(selector, body)) != [] ==>
      PurgeNode(env, Rule(selector, body)) == [Rule(Join(KeptSelectors(env, selector), ", "), body)]
  {
    var kept := KeptSelectors(env, selector);
    assert PurgeNode(env, Rule(selector, body)) == if |kept| > 0 then [Rule(Join(kept, ", "), body)] else [];
    if exists s :: s in TrimmedNonBlank(env.comma(selector)) && Keep(env, s) {
      var s :| s in TrimmedNonBlank(env.comma(selector)) && Keep(env, s);
      assert s in kept;
    } else if |kept| > 0 {
      assert kept[0] in kept;
    }
  }

  /** A rule with a safelisted selector is kept whatever the page holds. */
  lemma SafelistedRuleKept(env: PurgeEnv, selector: string, body: seq<CssNode>, k: nat)
    requires k < |env.comma(selector)| && Trim(env.comma(selector)[k]) != ""
    requires IsSelectorSafelisted(Trim(env.comma(selector)[k]))
    ensures PurgeNode(env, Rule(selector, body)) != []
  {
    var parts := env.comma(selector);
    var trimmed := seq(|parts|, i requires 0 <= i < |parts| => Trim(parts[i]));
    NonBlankKeeps(trimmed, k);
    RuleSurvival(env, selector, body);
  }

  lemma {:induction false} NonBlankKeeps(parts: seq<string>, k: nat)
    requires k < |parts| && parts[k] != ""
    ensures parts[k] in NonBlank(parts)
  {
    if k < |parts| - 1 {
      NonBlankKeeps(parts[..|parts| - 1], k);
    }
  }

  /** Every `@media` block the purge writes has content, at every level it walks. */
  predicate NoEmptyMedia(nodes: seq<CssNode>)
    decreases nodes
  {
    forall i :: 0 <= i < |nodes| ==>
      match nodes[i]
      case AtRule(name, _, inner) => name == "media" ==> inner != [] && NoEmptyMedia(inner)
      case _ => true
  }

  /** The output of the purge holds no empty `@media` block. */
  lemma {:induction false} PurgeDropsEmptyMedia(env: PurgeEnv, nodes: seq<CssNode>)
    ensures NoEmptyMedia(Purge(env, nodes))
    decreases nodes
  {
    if |nodes| > 0 {
      var init := nodes[..|nodes| - 1];
      var last := nodes[|nodes| - 1];
      PurgeDropsEmptyMedia(env, init);
      match last
      case AtRule(name, params, inner) =>
        if name == "media" {
          PurgeDropsEmptyMedia(env, inner);
        } else {
          assert NoEmptyMedia([last]) by {
            assert forall i :: 0 <= i < 1 ==> [last][i] == last;
          }
        }
      case _ =>
      var r := Purge(env, nodes);
      var a := Purge(env, init);
      assert r == a + PurgeNode(env, last);
      assert forall i :: 0 <= i < |a| ==> r[i] == a[i];
    }
  }

  /** The comments of a container, in order. */
  function Comments(nodes: seq<CssNode>): (r: seq<string>)
    ensures |r| <= |nodes|
  {
    if |nodes| == 0 then []
    else Comments(nodes[..|nodes| - 1]) + (if nodes[|nodes| - 1].Comment? then [nodes[|nodes| - 1].text] else [])
  }

  lemma {:induction false} CommentsAppend(a: seq<CssNode>, b: seq<CssNode>)
    ensures Comments(a + b) == Comments(a) + Comments(b)
    decreases |b|
  {
    if |b| == 0 {
      assert a + b == a;
    } else {
      assert (a + b)[..|a + b| - 1] == a + b[..|b| - 1];
      CommentsAppend(a, b[..|b| - 1]);
    }
  }

  /** Every comment of a container is copied, in order, and the purge writes no other. */
  lemma {:induction false} PurgeKeepsComments(env: PurgeEnv, nodes: seq<CssNode>)
    ensures Comments(Purge(env, nodes)) == Comments(nodes)
  {
    if |nodes| > 0 {
      var init := nodes[..|nodes| - 1];
      var last := nodes[|nodes| - 1];
      PurgeKeepsComments(env, init);
      CommentsAppend(Purge(env, init), PurgeNode(env, last));
      var out := PurgeNode(env, last);
      assert Comments(out) == if last.Comment? then [last.text] else [] by {
        if |out| == 1 {
          assert out[..0] == [];
        }
      }
    }
  }

  /** At-rules other than `@media` and comments are copied unchanged; declarations outside
      any rule are dropped. */
  lemma PurgeCopiesOthers(env: PurgeEnv, node: CssNode)
    ensures (node.AtRule? && node.name != "media") || node.Comment? ==> PurgeNode(env, node) == [node]
    ensures node.Decl? ==> PurgeNode(env, node) == []
  {
  }

  // ---------------------------------------------------------------------------------------
  // replaceAllLinksWithHash (src/optimize.js:42-49)
  // ---------------------------------------------------------------------------------------

  /** `a[href]` */
  const LinkSelector: seq<Simple> := [NamedWithAttr("a", "href")]

  predicate IsLink(t: Tree, i: NodeId)
    requires WellFormed(t) && i < |t|
  {
    MatchesAny(t, i, LinkSelector)
  }

  /** The document after the rewrite: every link points to `#`. */
  function LinksHashed(t: Tree): (r: Tree)
    requires WellFormed(t)
    ensures SameShape(t, r) && WellFormed(r)
    ensures forall i :: 0 <= i < |t| ==>
      r[i] == if IsLink(t, i) then t[i].(attrs := t[i].attrs["href" := "#"]) else t[i]
  {
    var r := seq(|t|, i requires 0 <= i < |t| =>
      if IsLink(t, i) then t[i].(attrs := t[i].attrs["href" := "#"]) else t[i]);
    SameShapeWellFormed(t, r);
    r
  }

  /** Afterwards every link's `href` is `#`, and a second rewrite changes nothing. */
  lemma LinksHashedIdempotent(t: Tree)
    requires WellFormed(t)
    ensures forall i :: 0 <= i < |t| && IsLink(t, i) ==> Attr(LinksHashed(t)[i], "href") == "#"
    ensures LinksHashed(LinksHashed(t)) == LinksHashed(t)
  {
    var r := LinksHashed(t);
    forall i | 0 <= i < |t|
      ensures LinksHashed(r)[i] == r[i]
    {
      if IsLink(r, i) {
        assert IsLink(t, i) by {
          assert Matches(r, i, LinkSelector[0]);
          assert Matches(t, i, LinkSelector[0]);
        }
        assert r[i].attrs["href" := "#"] == r[i].attrs;
      }
    }
  }

  /** `$("a[href]").each(...)`: each link whose `href` is not already `#` gets `#`. */
  method ReplaceAllLinksWithHash(doc: Document)
    requires WellFormed(doc.nodes)
    modifies doc
    ensures doc.nodes == LinksHashed(old(doc.nodes))
  {
    ghost var t := doc.nodes;
    var links := Select(doc.nodes, None, LinkSelector);
    SelectSound(t, None, LinkSelector);
    for k := 0 to |links|
      invariant |doc.nodes| == |t|
      invariant forall i :: 0 <= i < |t| ==>
        doc.nodes[i] == if i in links[..k] then t[i].(attrs := t[i].attrs["href" := "#"]) else t[i]
    {
      var el := links[k];
      assert el !in links[..k];
      var href := Attr(doc.nodes[el], "href");
      if href != "#" {
        doc.nodes := doc.nodes[el := doc.nodes[el].(attrs := doc.nodes[el].attrs["href" := "#"])];
      } else {
        assert doc.nodes[el].attrs["href" := "#"] == doc.nodes[el].attrs;
      }
      assert links[..k + 1] == links[..k] + [el];
    }
    assert links[..|links|] == links;
  }
}
