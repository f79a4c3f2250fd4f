/** `Array.prototype.filter` and `Array.prototype.some`, and the pairwise properties they keep. */
module Seqs {

  /**
   * `filter`: keeps exactly the elements satisfying `p`, each as often as
   * it occurs in `s`.
   */
  function Filter<T(!new)>(s: seq<T>, p: T -> bool): (r: seq<T>)
    ensures |r| <= |s|
    ensures forall x :: x in r <==> x in s && p(x)
    ensures forall x :: multiset(r)[x] == if p(x) then multiset(s)[x] else 0
    decreases |s|
  {
    if |s| == 0 then []
    else
      assert s == [s[0]] + s[1..];
      (if p(s[0]) then [s[0]] else []) + Filter(s[1..], p)
  }

  /** `some`: some element satisfies `p`. */
  function Any<T>(s: seq<T>, p: T -> bool): (r: bool)
    ensures r <==> exists i :: 0 <= i < |s| && p(s[i])
    decreases |s|
  {
    if |s| == 0 then false
    else
      assert forall i :: 0 <= i < |s| - 1 ==> s[1..][i] == s[i + 1];
      p(s[0]) || Any(s[1..], p)
  }

  /** `rel` holds of every pair of elements taken in their order in `s`. */
  ghost predicate Pairwise<T>(s: seq<T>, rel: (T, T) -> bool) {
    forall i, j :: 0 <= i < j < |s| ==> rel(s[i], s[j])
  }

  /** Filtering distributes over concatenation, so it keeps the relative order of what it keeps. */
  lemma {:induction false} FilterConcat<T(!new)>(a: seq<T>, b: seq<T>, p: T -> bool)
    ensures Filter(a + b, p) == Filter(a, p) + Filter(b, p)
    decreases |a|
  {
    if |a| > 0 {
      assert (a + b)[1..] == a[1..] + b;
      FilterConcat(a[1..], b, p);
    } else {
      assert a + b == b;
    }
  }

  /** Filtering a list headed by `x` keeps `x` in front exactly when it passes. */
  lemma FilterCons<T(!new)>(x: T, s: seq<T>, p: T -> bool)
    ensures Filter([x] + s, p) == (if p(x) then [x] else []) + Filter(s, p)
  {
    assert ([x] + s)[1..] == s;
  }

  /**
   * Two elements that the filter never keeps both of may trade places in
   * front of lists the filter maps to the same result.
   */
  lemma FilterFrontSwap<T(!new)>(y: T, u: seq<T>, x: T, t: seq<T>, p: T -> bool)
    requires !(p(x) && p(y))
    requires Filter(u, p) == Filter([x] + t, p)
    ensures Filter([y] + u, p) == Filter([x] + ([y] + t), p)
  {
    if p(y) {
      FilterConsDropped(x, t, p);
      FilterConsKept(y, u, p);
      FilterConsKept(y, t, p);
      FilterConsDropped(x, [y] + t, p);
    } else {
      FilterConsDropped(y, u, p);
      FilterConsDropped(y, t, p);
      if p(x) {
        FilterConsKept(x, t, p);
        FilterConsKept(x, [y] + t, p);
      } else {
        FilterConsDropped(x, t, p);
        FilterConsDropped(x, [y] + t, p);
      }
    }
  }

  lemma FilterConsKept<T(!new)>(x: T, s: seq<T>, p: T -> bool)
    requires p(x)
    ensures Filter([x] + s, p) == [x] + Filter(s, p)
  {
    FilterCons(x, s, p);
  }

  lemma FilterConsDropped<T(!new)>(x: T, s: seq<T>, p: T -> bool)
    requires !p(x)
    ensures Filter([x] + s, p) == Filter(s, p)
  {
    FilterCons(x, s, p);
    assert [] + Filter(s, p) == Filter(s, p);
  }

  /** Filtering by a predicate every element satisfies changes nothing. */
  lemma {:induction false} FilterKeepsAll<T(!new)>(s: seq<T>, p: T -> bool)
    requires forall i :: 0 <= i < |s| ==> p(s[i])
    ensures Filter(s, p) == s
    decreases |s|
  {
    if |s| > 0 {
      FilterKeepsAll(s[1..], p);
    }
  }

  lemma FilterRejectsSingle<T(!new)>(x: T, p: T -> bool)
    requires !p(x)
    ensures Filter([x], p) == []
  {
    assert [x][1..] == [];
  }

  /** Filtering out a single rejected element between kept ones closes the gap. */
  lemma FilterDropsOne<T(!new)>(before: seq<T>, x: T, after: seq<T>, p: T -> bool)
    requires forall i :: 0 <= i < |before| ==> p(before[i])
    requires !p(x)
    requires forall i :: 0 <= i < |after| ==> p(after[i])
    ensures Filter(before + [x] + after, p) == before + after
  {
    FilterKeepsAll(before, p);
    FilterKeepsAll(after, p);
    FilterRejectsSingle(x, p);
    FilterAroundOne(before, x, after, p);
  }

  lemma FilterAroundOne<T(!new)>(before: seq<T>, x: T, after: seq<T>, p: T -> bool)
    requires Filter(before, p) == before && Filter([x], p) == [] && Filter(after, p) == after
    ensures Filter(before + [x] + after, p) == before + after
  {
    calc {
      Filter(before + [x] + after, p);
    == { FilterConcat(before + [x], after, p); }
      Filter(before + [x], p) + Filter(after, p);
    == { FilterConcat(before, [x], p); }
      Filter(before, p) + Filter([x], p) + Filter(after, p);
    == { assert before + [] == before; }
      before + after;
    }
  }

  /** A pairwise property of `[x] + t`, split into its head and its tail. */
  lemma ConsPairwise<T>(x: T, t: seq<T>, rel: (T, T) -> bool)
    requires forall y :: y in t ==> rel(x, y)
    requires Pairwise(t, rel)
    ensures Pairwise([x] + t, rel)
  {
    var r := [x] + t;
    forall i, j | 0 <= i < j < |r| ensures rel(r[i], r[j]) {
      if i == 0 {
        assert r[j] == t[j - 1];
      } else {
        assert r[i] == t[i - 1] && r[j] == t[j - 1];
      }
    }
  }

  /** Filtering keeps every pairwise property, since it keeps a sub-sequence in order. */
  lemma {:induction false} FilterPairwise<T(!new)>(s: seq<T>, p: T -> bool, rel: (T, T) -> bool)
    requires Pairwise(s, rel)
    ensures Pairwise(Filter(s, p), rel)
    decreases |s|
  {
    if |s| > 0 {
      var tail := s[1..];
      assert Pairwise(tail, rel) by {
        forall i, j | 0 <= i < j < |tail| ensures rel(tail[i], tail[j]) {
          assert tail[i] == s[i + 1] && tail[j] == s[j + 1];
        }
      }
      FilterPairwise(tail, p, rel);
      if p(s[0]) {
        forall y | y in Filter(tail, p) ensures rel(s[0], y) {
          var k :| 0 <= k < |tail| && tail[k] == y;
          assert s[k + 1] == y;
        }
        ConsPairwise(s[0], Filter(tail, p), rel);
        assert Filter(s, p) == [s[0]] + Filter(tail, p);
      } else {
        assert Filter(s, p) == Filter(tail, p);
      }
    }
  }
}
