/**
  The static document tree the offline tools load with cheerio: every node has a type, a
  tag name (empty for nodes that have none), attributes, a parent link and ordered children.
  A tree is a sequence of nodes indexed by `NodeId`; the index order is document order.
  Selector matching is modelled for the simple selectors the tools actually use.
*/
module Dom {
  import opened Wrappers
  import opened Text

  type NodeId = nat

  /** cheerio's `type`: "tag" for ordinary elements, "script"/"style" for the raw-text
      elements (elements for selector matching, but not of type "tag"), "root" for the
      document node, and text, comment and directive nodes as `Other`. */
  datatype NodeType = Tag | RawText | Root | Other

  datatype Node = Node(
    nodeType: NodeType,
    name: string,
    attrs: map<string, string>,
    parent: Option<NodeId>,
    children: seq<NodeId>)

  type Tree = seq<Node>

  predicate RefsWithin(n: Node, size: nat) {
    && (n.parent.Some? ==> n.parent.value < size)
    && forall k :: 0 <= k < |n.children| ==> n.children[k] < size
  }

  /** Every parent and child reference names a node of the tree. */
  predicate WellFormed(t: Tree) {
    forall i :: 0 <= i < |t| ==> RefsWithin(t[i], |t|)
  }

  /** `(el.attribs && el.attribs[key]) || ""` */
  function Attr(n: Node, key: string): string {
    if key in n.attrs then n.attrs[key] else ""
  }

  function IdOf(n: Node): string {
    Attr(n, "id")
  }

  /** What css-select counts as an element. */
  predicate IsElement(n: Node) {
    n.nodeType == Tag || n.nodeType == RawText
  }

  /** The words of `s` that follow the partial word `cur`: white space ends the word being
      read, any other character extends it. */
  function WordsFrom(s: string, cur: string): (r: seq<string>)
    ensures forall i :: 0 <= i < |r| ==> r[i] != ""
  {
    if |s| == 0 then (if cur == "" then [] else [cur])
    else if IsJsSpace(s[0]) then (if cur == "" then [] else [cur]) + WordsFrom(s[1..], "")
    else WordsFrom(s[1..], cur + [s[0]])
  }

  /** `s.split(/\s+/).filter(Boolean)`: the maximal runs of non-white-space characters. */
  function Words(s: string): (r: seq<string>)
    ensures forall i :: 0 <= i < |r| ==> r[i] != ""
  {
    WordsFrom(s, "")
  }

  predicate NoSpace(w: string) {
    forall k :: 0 <= k < |w| ==> !IsJsSpace(w[k])
  }

  lemma {:induction false} WordsFromWord(w: string, cur: string)
    requires NoSpace(w) && cur + w != ""
    ensures WordsFrom(w, cur) == [cur + w]
  {
    if |w| > 0 {
      assert NoSpace(w[1..]) by {
        forall k | 0 <= k < |w[1..]| ensures !IsJsSpace(w[1..][k]) {
          assert w[1..][k] == w[k + 1];
        }
      }
      assert (cur + [w[0]]) + w[1..] == cur + w;
      WordsFromWord(w[1..], cur + [w[0]]);
    } else {
      assert cur + w == cur;
    }
  }

  /** A single word splits into itself. */
  lemma WordsOfWord(w: string)
    requires w != [] && NoSpace(w)
    ensures Words(w) == [w]
  {
    WordsFromWord(w, "");
    assert "" + w == w;
  }

  lemma {:induction false} WordsFromNoSpace(s: string, cur: string)
    requires NoSpace(cur)
    ensures forall i :: 0 <= i < |WordsFrom(s, cur)| ==> NoSpace(WordsFrom(s, cur)[i])
    decreases |s|
  {
    if |s| > 0 {
      if IsJsSpace(s[0]) {
        WordsFromNoSpace(s[1..], "");
      } else {
        assert NoSpace(cur + [s[0]]) by {
          forall k | 0 <= k < |cur + [s[0]]| ensures !IsJsSpace((cur + [s[0]])[k]) {
            if k < |cur| { assert (cur + [s[0]])[k] == cur[k]; }
          }
        }
        WordsFromNoSpace(s[1..], cur + [s[0]]);
      }
    }
  }

  /** Every class word is a non-empty run without white space. */
  lemma WordsNoSpace(s: string)
    ensures forall i :: 0 <= i < |Words(s)| ==> Words(s)[i] != "" && NoSpace(Words(s)[i])
  {
    WordsFromNoSpace(s, "");
  }

  function ClassTokens(n: Node): seq<string> {
    Words(Attr(n, "class"))
  }

  predicate HasClass(n: Node, cls: string) {
    cls in ClassTokens(n)
  }

  /** The proper ancestors of a node are found by climbing parent links; `fuel` bounds the
      climb by the size of the tree. */
  predicate AncestorWithin(t: Tree, a: NodeId, cur: Option<NodeId>, fuel: nat)
    requires WellFormed(t)
    requires cur.Some? ==> cur.value < |t|
    decreases fuel
  {
    fuel > 0 && cur.Some? && (cur.value == a || AncestorWithin(t, a, t[cur.value].parent, fuel - 1))
  }

  predicate IsAncestor(t: Tree, a: NodeId, d: NodeId)
    requires WellFormed(t) && d < |t|
  {
    AncestorWithin(t, a, t[d].parent, |t|)
  }

  /** Some node on the climb from `cur` is an element named `tag`. */
  predicate AncestorNamedWithin(t: Tree, tag: string, cur: Option<NodeId>, fuel: nat)
    requires WellFormed(t)
    requires cur.Some? ==> cur.value < |t|
    decreases fuel
  {
    fuel > 0 && cur.Some? &&
    ((IsElement(t[cur.value]) && t[cur.value].name == tag) ||
     AncestorNamedWithin(t, tag, t[cur.value].parent, fuel - 1))
  }

  /** The simple selectors the tools query with. */
  datatype Simple =
    | Named(tag: string)                    // `tag`
    | Classed(cls: string)                  // `.cls`
    | HasAttr(attr: string)                 // `[attr]`
    | AttrIs(attr: string, value: string)   // `[attr='value']`
    | NamedWithAttr(tag: string, attr: string)  // `tag[attr]`
    | ChildOf(parentTag: string)            // `parentTag > *`
    | DescendantOf(outer: string, tag: string)  // `outer tag`

  predicate Matches(t: Tree, i: NodeId, s: Simple)
    requires WellFormed(t) && i < |t|
  {
    var n := t[i];
    IsElement(n) &&
    match s
    case Named(tag) => n.name == tag
    case Classed(cls) => HasClass(n, cls)
    case HasAttr(a) => a in n.attrs
    case AttrIs(a, v) => a in n.attrs && n.attrs[a] == v
    case NamedWithAttr(tag, a) => n.name == tag && a in n.attrs
    case ChildOf(pt) => n.parent.Some? && IsElement(t[n.parent.value]) && t[n.parent.value].name == pt
    case DescendantOf(outer, tag) => n.name == tag && AncestorNamedWithin(t, outer, n.parent, |t|)
  }

  /** A selector group `a, b, c` matches what any of its members matches. */
  predicate MatchesAny(t: Tree, i: NodeId, group: seq<Simple>)
    requires WellFormed(t) && i < |t|
  {
    exists k :: 0 <= k < |group| && Matches(t, i, group[k])
  }

  /** No scope: the whole document; `Some(r)`: the descendants of `r` (cheerio's `find`). */
  predicate InScope(t: Tree, scope: Option<NodeId>, i: NodeId)
    requires WellFormed(t) && i < |t|
  {
    scope.None? || IsAncestor(t, scope.value, i)
  }

  /** The nodes among the first `n` that lie in `scope` and match `group`, in document order. */
  function SelectUpTo(t: Tree, scope: Option<NodeId>, group: seq<Simple>, n: nat): (r: seq<NodeId>)
    requires WellFormed(t) && n <= |t|
    ensures forall k :: 0 <= k < |r| ==> r[k] < n
  {
    if n == 0 then []
    else
      var before := SelectUpTo(t, scope, group, n - 1);
      if InScope(t, scope, n - 1) && MatchesAny(t, n - 1, group) then before + [n - 1] else before
  }

  /** `$(group)` when `scope` is `None`, `$(scope).find(group)` otherwise. */
  function Select(t: Tree, scope: Option<NodeId>, group: seq<Simple>): (r: seq<NodeId>)
    requires WellFormed(t)
    ensures forall k :: 0 <= k < |r| ==> r[k] < |t|
  {
    SelectUpTo(t, scope, group, |t|)
  }

  lemma {:induction false} SelectUpToSound(t: Tree, scope: Option<NodeId>, group: seq<Simple>, n: nat)
    requires WellFormed(t) && n <= |t|
    ensures var r := SelectUpTo(t, scope, group, n);
      && (forall k :: 0 <= k < |r| ==> InScope(t, scope, r[k]) && MatchesAny(t, r[k], group))
      && (forall i :: 0 <= i < n && InScope(t, scope, i) && MatchesAny(t, i, group) ==> i in r)
      && (forall a, b :: 0 <= a < b < |r| ==> r[a] < r[b])
  {
    if n > 0 {
      SelectUpToSound(t, scope, group, n - 1);
      var before := SelectUpTo(t, scope, group, n - 1);
      if InScope(t, scope, n - 1) && MatchesAny(t, n - 1, group) {
        assert SelectUpTo(t, scope, group, n) == before + [n - 1];
      } else {
        assert SelectUpTo(t, scope, group, n) == before;
      }
    }
  }

  /** The selection holds exactly the matching nodes in scope, each once, in document order. */
  lemma SelectSound(t: Tree, scope: Option<NodeId>, group: seq<Simple>)
    requires WellFormed(t)
    ensures var r := Select(t, scope, group);
      && (forall k :: 0 <= k < |r| ==> InScope(t, scope, r[k]) && MatchesAny(t, r[k], group))
      && (forall i :: 0 <= i < |t| && InScope(t, scope, i) && MatchesAny(t, i, group) ==> i in r)
      && (forall a, b :: 0 <= a < b < |r| ==> r[a] < r[b])
  {
    SelectUpToSound(t, scope, group, |t|);
  }

  /** A selection over fewer nodes is a prefix of one over more; the rest lies beyond. */
  lemma {:induction false} SelectUpToPrefix(t: Tree, scope: Option<NodeId>, group: seq<Simple>, m: nat, n: nat)
    requires WellFormed(t) && m <= n <= |t|
    ensures var a, b := SelectUpTo(t, scope, group, m), SelectUpTo(t, scope, group, n);
      |a| <= |b| && b[..|a|] == a && forall k :: |a| <= k < |b| ==> b[k] >= m
  {
    if m < n {
      SelectUpToPrefix(t, scope, group, m, n - 1);
      var a, b := SelectUpTo(t, scope, group, m), SelectUpTo(t, scope, group, n - 1);
      if InScope(t, scope, n - 1) && MatchesAny(t, n - 1, group) {
        assert SelectUpTo(t, scope, group, n) == b + [n - 1];
        assert (b + [n - 1])[..|a|] == b[..|a|];
      }
    }
  }

  /** The `k`-th selected node has exactly `k` selected nodes before it. */
  lemma SelectRank(t: Tree, scope: Option<NodeId>, group: seq<Simple>, k: nat)
    requires WellFormed(t) && k < |Select(t, scope, group)|
    ensures |SelectUpTo(t, scope, group, Select(t, scope, group)[k])| == k
  {
    var r := Select(t, scope, group);
    var a := SelectUpTo(t, scope, group, r[k]);
    SelectUpToPrefix(t, scope, group, r[k], |t|);
    SelectSound(t, scope, group);
    assert |a| < |r| ==> r[|a|] >= r[k];
    if |a| > k {
      assert false;
    } else if |a| < k {
      assert false;
    }
  }

  /** How many nodes of `sibs`, before `cur` is met, are elements of type "tag" named `tag`. */
  function CountSameTagBefore(t: Tree, sibs: seq<NodeId>, cur: NodeId, tag: string): nat
    requires forall k :: 0 <= k < |sibs| ==> sibs[k] < |t|
  {
    if |sibs| == 0 || sibs[0] == cur then 0
    else (if t[sibs[0]].nodeType == Tag && t[sibs[0]].name == tag then 1 else 0)
         + CountSameTagBefore(t, sibs[1..], cur, tag)
  }

  /** The `k` of `tag:nth-of-type(k)`: one more than the number of earlier element siblings
      of type "tag" with the same tag name. */
  function NthOfType(t: Tree, cur: NodeId): (k: nat)
    requires WellFormed(t) && cur < |t|
    ensures k >= 1
  {
    1 + match t[cur].parent
        case None => 0
        case Some(p) => CountSameTagBefore(t, t[p].children, cur, t[cur].name)
  }

  /** The step bound both path builders put on their climb. */
  const ClimbGuard: nat := 2048

  /** `${tag}:nth-of-type(${k})` */
  function TypeFragment(tag: string, k: nat): string {
    tag + ":nth-of-type(" + NatToDecimal(k) + ")"
  }

  /** The sibling-counting loop both path builders share. */
  method IndexOfType(t: Tree, cur: NodeId) returns (k: nat)
    requires WellFormed(t) && cur < |t|
    ensures k == NthOfType(t, cur)
  {
    k := 1;
    var tag := t[cur].name;
    if t[cur].parent.Some? {
      var sibs := t[t[cur].parent.value].children;
      var i := 0;
      while i < |sibs|
        invariant 0 <= i <= |sibs|
        invariant k + CountSameTagBefore(t, sibs[i..], cur, tag) == NthOfType(t, cur)
      {
        if sibs[i] == cur {
          break;
        }
        assert sibs[i..][1..] == sibs[i + 1..];
        if t[sibs[i]].nodeType == Tag && t[sibs[i]].name == tag {
          k := k + 1;
        }
        i := i + 1;
      }
    }
  }

  /** The number of elements of type "tag" named `tag` in `s`. */
  function SameTagCount(t: Tree, s: seq<NodeId>, tag: string): nat
    requires forall k :: 0 <= k < |s| ==> s[k] < |t|
  {
    if |s| == 0 then 0
    else SameTagCount(t, s[..|s| - 1], tag)
         + (if t[s[|s| - 1]].nodeType == Tag && t[s[|s| - 1]].name == tag then 1 else 0)
  }

  lemma {:induction false} CountBeforeIsPrefixCount(t: Tree, sibs: seq<NodeId>, i: nat, tag: string)
    requires forall k :: 0 <= k < |sibs| ==> sibs[k] < |t|
    requires i < |sibs| && sibs[i] !in sibs[..i]
    ensures CountSameTagBefore(t, sibs, sibs[i], tag) == SameTagCount(t, sibs[..i], tag)
  {
    if i > 0 {
      assert sibs[1..][i - 1] == sibs[i];
      assert sibs[1..][..i - 1] == sibs[1..i];
      CountBeforeIsPrefixCount(t, sibs[1..], i - 1, tag);
      SameTagCountCons(t, sibs[0], sibs[1..i], tag);
      assert [sibs[0]] + sibs[1..i] == sibs[..i];
    }
  }

  lemma {:induction false} SameTagCountCons(t: Tree, x: NodeId, s: seq<NodeId>, tag: string)
    requires x < |t| && forall k :: 0 <= k < |s| ==> s[k] < |t|
    ensures SameTagCount(t, [x] + s, tag)
         == (if t[x].nodeType == Tag && t[x].name == tag then 1 else 0) + SameTagCount(t, s, tag)
    decreases |s|
  {
    if |s| > 0 {
      assert ([x] + s)[..|s|] == [x] + s[..|s| - 1];
      SameTagCountCons(t, x, s[..|s| - 1], tag);
    }
  }

  lemma {:induction false} SameTagCountMonotone(t: Tree, s: seq<NodeId>, i: nat, j: nat, tag: string)
    requires forall k :: 0 <= k < |s| ==> s[k] < |t|
    requires i <= j <= |s|
    ensures SameTagCount(t, s[..i], tag) <= SameTagCount(t, s[..j], tag)
    decreases j
  {
    if i < j {
      assert s[..j][..j - 1] == s[..j - 1];
      SameTagCountMonotone(t, s, i, j - 1, tag);
    }
  }

  /** Among the children of one parent (listed once each), a later element of the same tag
      gets a strictly larger `nth-of-type` index, so distinct same-tag siblings never share
      a path fragment. */
  lemma NthOfTypeStrictlyIncreasing(t: Tree, p: NodeId, i: nat, j: nat)
    requires WellFormed(t) && p < |t|
    requires i < j < |t[p].children|
    requires forall a, b :: 0 <= a < b < |t[p].children| ==> t[p].children[a] != t[p].children[b]
    requires t[t[p].children[i]].parent == Some(p) && t[t[p].children[j]].parent == Some(p)
    requires t[t[p].children[i]].nodeType == Tag
    requires t[t[p].children[i]].name == t[t[p].children[j]].name
    ensures NthOfType(t, t[p].children[i]) < NthOfType(t, t[p].children[j])
  {
    var sibs := t[p].children;
    assert RefsWithin(t[p], |t|);
    var tag := t[sibs[i]].name;
    assert sibs[i] !in sibs[..i] by {
      forall k | 0 <= k < i ensures sibs[..i][k] != sibs[i] { }
    }
    assert sibs[j] !in sibs[..j] by {
      forall k | 0 <= k < j ensures sibs[..j][k] != sibs[j] { }
    }
    CountBeforeIsPrefixCount(t, sibs, i, tag);
    CountBeforeIsPrefixCount(t, sibs, j, tag);
    SameTagCountMonotone(t, sibs, i + 1, j, tag);
    assert sibs[..i + 1][..i] == sibs[..i];
  }

  /** The static document cheerio loads: its nodes change in place. */
  class Document {
    var nodes: Tree

    constructor (t: Tree)
      ensures nodes == t
    {
      nodes := t;
    }
  }

  /** Two trees with the same nodes, links and names, whose attributes may differ. */
  predicate SameShape(a: Tree, b: Tree) {
    |a| == |b| &&
    forall i :: 0 <= i < |a| ==>
      a[i].nodeType == b[i].nodeType && a[i].name == b[i].name &&
      a[i].parent == b[i].parent && a[i].children == b[i].children
  }

  lemma SameShapeWellFormed(a: Tree, b: Tree)
    requires SameShape(a, b)
    ensures WellFormed(a) ==> WellFormed(b)
  {
    if WellFormed(a) {
      forall i | 0 <= i < |b| ensures RefsWithin(b[i], |b|) {
        assert RefsWithin(a[i], |a|);
      }
    }
  }

  /** `$(el).attr(key, value)`: one attribute of one node changes, nothing else. */
  function SetAttr(t: Tree, id: NodeId, key: string, value: string): (r: Tree)
    requires id < |t|
    ensures SameShape(t, r)
    ensures WellFormed(t) ==> WellFormed(r)
    ensures r[id].attrs == t[id].attrs[key := value]
    ensures forall i :: 0 <= i < |t| && i != id ==> r[i] == t[i]
  {
    var r := t[id := t[id].(attrs := t[id].attrs[key := value])];
    SameShapeWellFormed(t, r);
    r
  }

  /** `$(el).removeAttr(key)` */
  function RemoveAttr(t: Tree, id: NodeId, key: string): (r: Tree)
    requires id < |t|
    ensures SameShape(t, r)
    ensures WellFormed(t) ==> WellFormed(r)
    ensures r[id].attrs == t[id].attrs - {key}
    ensures forall i :: 0 <= i < |t| && i != id ==> r[i] == t[i]
  {
    var r := t[id := t[id].(attrs := t[id].attrs - {key})];
    SameShapeWellFormed(t, r);
    r
  }
}
