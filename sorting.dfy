/**
  `Array.prototype.sort()` without a comparator on a list of strings: the strings are
  ordered code unit by code unit, a proper prefix before any longer string. The sort is
  given here as an insertion sort; since the order is total and antisymmetric, every
  correct sort returns the same list (`SortedUnique`).
*/
module Sorting {
  import opened Text

  /** `a <= b` in the default sort order, compared character by character through the
      characters' places in code-unit order. */
  predicate LexLe(a: string, b: string) {
    |a| == 0 || (|b| > 0 && (UnitRank(a[0]) < UnitRank(b[0]) || (a[0] == b[0] && LexLe(a[1..], b[1..]))))
  }

  /** The order is the one `sort()` uses: the strings' UTF-16 code units compared one by
      one, a proper prefix first. */
  lemma {:induction false} LexLeIsUnitOrder(a: string, b: string)
    ensures LexLe(a, b) == UnitsLe(CodeUnits(a), CodeUnits(b))
  {
    if |a| > 0 && |b| > 0 {
      if a[0] == b[0] {
        UnitsLeCommonPrefix(Utf16(a[0]), CodeUnits(a[1..]), CodeUnits(b[1..]));
        LexLeIsUnitOrder(a[1..], b[1..]);
      } else {
        UnitsOfDistinct(a[0], b[0], CodeUnits(a[1..]), CodeUnits(b[1..]));
      }
    } else if |a| > 0 {
      assert |CodeUnits(a)| > 0;
    }
  }

  lemma {:induction false} LexLeTotal(a: string, b: string)
    ensures LexLe(a, b) || LexLe(b, a)
  {
    if |a| > 0 && |b| > 0 {
      if a[0] == b[0] {
        LexLeTotal(a[1..], b[1..]);
      } else if UnitRank(a[0]) == UnitRank(b[0]) {
        UnitRankInjective(a[0], b[0]);
      }
    }
  }

  lemma {:induction false} LexLeAntisymmetric(a: string, b: string)
    requires LexLe(a, b) && LexLe(b, a)
    ensures a == b
  {
    if |a| > 0 && |b| > 0 {
      LexLeAntisymmetric(a[1..], b[1..]);
      assert a == [a[0]] + a[1..] && b == [b[0]] + b[1..];
    }
  }

  lemma {:induction false} LexLeTransitive(a: string, b: string, c: string)
    requires LexLe(a, b) && LexLe(b, c)
    ensures LexLe(a, c)
  {
    if |a| > 0 && |b| > 0 && |c| > 0 && a[0] == b[0] && b[0] == c[0] {
      LexLeTransitive(a[1..], b[1..], c[1..]);
    }
  }

  predicate Sorted(s: seq<string>) {
    forall i, j :: 0 <= i < j < |s| ==> LexLe(s[i], s[j])
  }

  /** `x` inserted before the first element it does not follow. */
  function Insert(x: string, s: seq<string>): (r: seq<string>)
    ensures multiset(r) == multiset(s) + multiset{x}
  {
    if |s| == 0 then [x]
    else if LexLe(x, s[0]) then [x] + s
    else
      assert s == [s[0]] + s[1..];
      [s[0]] + Insert(x, s[1..])
  }

  lemma {:induction false} InsertSorted(x: string, s: seq<string>)
    requires Sorted(s)
    ensures Sorted(Insert(x, s))
  {
    if |s| > 0 {
      if LexLe(x, s[0]) {
        forall j | 0 <= j < |s|
          ensures LexLe(x, s[j])
        {
          if j > 0 {
            LexLeTransitive(x, s[0], s[j]);
          }
        }
        var r := [x] + s;
        assert forall j :: 1 <= j < |r| ==> r[j] == s[j - 1];
      } else {
        LexLeTotal(x, s[0]);
        InsertSorted(x, s[1..]);
        var rest := Insert(x, s[1..]);
        forall j | 0 <= j < |rest|
          ensures LexLe(s[0], rest[j])
        {
          assert rest[j] in multiset(rest);
          if rest[j] != x {
            assert rest[j] in multiset(s[1..]);
          }
        }
      }
    }
  }

  /** The default sort. */
  function Sort(xs: seq<string>): (r: seq<string>)
    ensures multiset(r) == multiset(xs)
    ensures |r| == |xs|
  {
    if |xs| == 0 then []
    else
      assert xs == [xs[0]] + xs[1..];
      Insert(xs[0], Sort(xs[1..]))
  }

  lemma {:induction false} SortSorted(xs: seq<string>)
    ensures Sorted(Sort(xs))
  {
    if |xs| > 0 {
      SortSorted(xs[1..]);
      InsertSorted(xs[0], Sort(xs[1..]));
    }
  }

  /** Two sorted lists holding the same strings are the same list. */
  lemma {:induction false} SortedUnique(a: seq<string>, b: seq<string>)
    requires Sorted(a) && Sorted(b) && multiset(a) == multiset(b)
    ensures a == b
  {
    if |a| == 0 {
      assert |multiset(b)| == 0;
    } else {
      assert |b| == |multiset(b)| == |multiset(a)| == |a|;
      SortedHeads(a, b);
      assert a == [a[0]] + a[1..] && b == [b[0]] + b[1..];
      assert multiset(a[1..]) == multiset(a) - multiset{a[0]};
      assert multiset(b[1..]) == multiset(b) - multiset{b[0]};
      assert Sorted(a[1..]);
      assert Sorted(b[1..]);
      SortedUnique(a[1..], b[1..]);
    }
  }

  /** The first element of a sorted list is its least. */
  lemma SortedHeads(a: seq<string>, b: seq<string>)
    requires Sorted(a) && Sorted(b) && multiset(a) == multiset(b) && |a| > 0 && |b| > 0
    ensures a[0] == b[0]
  {
    assert a[0] in multiset(b);
    assert b[0] in multiset(a);
    var k :| 0 <= k < |b| && b[k] == a[0];
    var m :| 0 <= m < |a| && a[m] == b[0];
    if m > 0 {
      assert LexLe(a[0], a[m]);
    } else {
      LexLeTotal(a[0], a[0]);
    }
    if k > 0 {
      assert LexLe(b[0], b[k]);
    } else {
      LexLeTotal(b[0], b[0]);
    }
    LexLeAntisymmetric(a[0], b[0]);
  }

  /** Sorting a list already in order changes nothing. */
  lemma SortOfSorted(xs: seq<string>)
    requires Sorted(xs)
    ensures Sort(xs) == xs
  {
    SortSorted(xs);
    SortedUnique(Sort(xs), xs);
  }

  /** The sorted list depends only on which strings the list holds, not on their order. */
  lemma SortPermutation(xs: seq<string>, ys: seq<string>)
    requires multiset(xs) == multiset(ys)
    ensures Sort(xs) == Sort(ys)
  {
    SortSorted(xs);
    SortSorted(ys);
    SortedUnique(Sort(xs), Sort(ys));
  }
}
