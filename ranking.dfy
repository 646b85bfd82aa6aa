/**
 * The ranking of the scored recipes: `recipes.sort(key=lambda r:
 * r.match_count, reverse=True)`, Python's stable sort, which orders by
 * non-increasing `match_count` and keeps recipes with equal counts in the
 * order they were scored.
 */
module Ranking {
  import opened Models

  predicate SortedByMatchDesc(rs: seq<Recipe>) {
    forall i, j :: 0 <= i < j < |rs| ==> rs[i].matchCount >= rs[j].matchCount
  }

  /** The recipes of `rs` whose `match_count` is `k`, in their order in `rs`. */
  function WithCount(rs: seq<Recipe>, k: int): seq<Recipe> {
    if rs == [] then []
    else WithCount(rs[..|rs| - 1], k) + if rs[|rs| - 1].matchCount == k then [rs[|rs| - 1]] else []
  }

  /**
   * `sorted` is a stable descending sort of `rs` by `match_count`: ordered,
   * a permutation, and every group of equal counts in its original order.
   */
  ghost predicate IsStableSortDesc(rs: seq<Recipe>, sorted: seq<Recipe>) {
    && SortedByMatchDesc(sorted)
    && multiset(sorted) == multiset(rs)
    && forall k :: WithCount(sorted, k) == WithCount(rs, k)
  }

  lemma {:induction false} WithCountAppend(a: seq<Recipe>, b: seq<Recipe>, k: int)
    ensures WithCount(a + b, k) == WithCount(a, k) + WithCount(b, k)
  {
    if b == [] {
      assert a + b == a;
    } else {
      WithCountAppend(a, b[..|b| - 1], k);
      assert (a + b)[..|a + b| - 1] == a + b[..|b| - 1];
    }
  }

  lemma {:induction false} WithCountAbsent(rs: seq<Recipe>, k: int)
    requires forall t :: 0 <= t < |rs| ==> rs[t].matchCount != k
    ensures WithCount(rs, k) == []
  {
    if rs != [] {
      WithCountAbsent(rs[..|rs| - 1], k);
    }
  }

  /** Inserting `x` before every recipe of smaller count appends `x` to its own group only. */
  lemma InsertGroups(sorted: seq<Recipe>, x: Recipe, j: nat, k: int)
    requires j <= |sorted|
    requires forall t :: j <= t < |sorted| ==> sorted[t].matchCount < x.matchCount
    ensures WithCount(sorted[..j] + [x] + sorted[j..], k)
              == WithCount(sorted, k) + if x.matchCount == k then [x] else []
  {
    var front, back := sorted[..j], sorted[j..];
    WithCountAppend(front + [x], back, k);
    WithCountSnoc(front, x, k);
    WithCountAppend(front, back, k);
    assert front + back == sorted;
    if k == x.matchCount {
      WithCountAbsent(back, k);
    }
  }

  /** Inserting `x` between the recipes of count at least and below its own keeps the order. */
  lemma InsertSorted(sorted: seq<Recipe>, x: Recipe, j: nat)
    requires SortedByMatchDesc(sorted) && j <= |sorted|
    requires forall t :: 0 <= t < j ==> sorted[t].matchCount >= x.matchCount
    requires forall t :: j <= t < |sorted| ==> sorted[t].matchCount < x.matchCount
    ensures SortedByMatchDesc(sorted[..j] + [x] + sorted[j..])
  {
    var result := sorted[..j] + [x] + sorted[j..];
    forall a, b | 0 <= a < b < |result| ensures result[a].matchCount >= result[b].matchCount {
      if a < j && b > j {
        assert result[b] == sorted[b - 1];
      }
    }
  }

  /**
   * Inserting `x` after every recipe whose count is at least `x`'s extends a
   * stable sort of `done` to a stable sort of `done + [x]`.
   */
  lemma InsertAfterNotSmaller(done: seq<Recipe>, sorted: seq<Recipe>, x: Recipe, j: nat)
    requires IsStableSortDesc(done, sorted)
    requires j <= |sorted|
    requires forall t :: 0 <= t < j ==> sorted[t].matchCount >= x.matchCount
    requires forall t :: j <= t < |sorted| ==> sorted[t].matchCount < x.matchCount
    ensures IsStableSortDesc(done + [x], sorted[..j] + [x] + sorted[j..])
  {
    var result := sorted[..j] + [x] + sorted[j..];
    forall k ensures WithCount(result, k) == WithCount(done + [x], k) {
      InsertGroups(sorted, x, j, k);
      WithCountSnoc(done, x, k);
    }
    InsertSorted(sorted, x, j);
    assert sorted == sorted[..j] + sorted[j..];
    assert multiset(result) == multiset(sorted) + multiset{x};
  }

  /** Where a recipe of count `x` goes: after every recipe whose count is at least `x`'s. */
  method InsertionPoint(sorted: seq<Recipe>, x: int) returns (j: nat)
    requires SortedByMatchDesc(sorted)
    ensures j <= |sorted|
    ensures forall t :: 0 <= t < j ==> sorted[t].matchCount >= x
    ensures forall t :: j <= t < |sorted| ==> sorted[t].matchCount < x
  {
    j := 0;
    while j < |sorted| && sorted[j].matchCount >= x
      invariant j <= |sorted|
      invariant forall t :: 0 <= t < j ==> sorted[t].matchCount >= x
    {
      j := j + 1;
    }
  }

  /** `recipes.sort(key=lambda r: r.match_count, reverse=True)`, as an insertion sort. */
  method SortByMatchDesc(rs: seq<Recipe>) returns (sorted: seq<Recipe>)
    ensures IsStableSortDesc(rs, sorted)
  {
    sorted := [];
    for i := 0 to |rs|
      invariant IsStableSortDesc(rs[..i], sorted)
    {
      var x := rs[i];
      var j := InsertionPoint(sorted, x.matchCount);
      InsertAfterNotSmaller(rs[..i], sorted, x, j);
      assert rs[..i + 1] == rs[..i] + [x];
      sorted := sorted[..j] + [x] + sorted[j..];
    }
    assert rs[..|rs|] == rs;
  }

  /** A sort neither adds nor drops a recipe. */
  lemma SortKeepsElements(rs: seq<Recipe>, sorted: seq<Recipe>)
    requires IsStableSortDesc(rs, sorted)
    ensures forall x :: x in sorted <==> x in rs
  {
    forall x ensures x in sorted <==> x in rs {
      assert x in sorted <==> x in multiset(sorted);
      assert x in rs <==> x in multiset(rs);
    }
  }

  lemma WithCountSnoc(s: seq<Recipe>, x: Recipe, k: int)
    ensures WithCount(s + [x], k) == WithCount(s, k) + if x.matchCount == k then [x] else []
  {
    assert (s + [x])[..|s|] == s;
  }

  /** The last recipe of a sorted list has the smallest count of the list. */
  lemma LastIsSmallest(a: seq<Recipe>, x: Recipe)
    requires SortedByMatchDesc(a) && x in multiset(a)
    ensures x.matchCount >= a[|a| - 1].matchCount
  {
    var p :| 0 <= p < |a| && a[p] == x;
  }

  /** Two sorted lists with the same elements end with recipes of the same count. */
  lemma SameLastCount(a: seq<Recipe>, b: seq<Recipe>)
    requires a != [] && SortedByMatchDesc(a) && SortedByMatchDesc(b)
    requires multiset(a) == multiset(b)
    ensures |a| == |b| && a[|a| - 1].matchCount == b[|b| - 1].matchCount
  {
    assert |a| == |multiset(a)| == |multiset(b)| == |b|;
    var n := |a| - 1;
    var x, y := a[n], b[n];
    assert y in multiset(a);
    LastIsSmallest(a, y);
    assert x in multiset(b);
    LastIsSmallest(b, x);
  }

  /** Lists whose last recipes share a count, and whose groups of that count agree, end alike. */
  lemma SameLast(a: seq<Recipe>, b: seq<Recipe>)
    requires a != [] && |a| == |b|
    requires a[|a| - 1].matchCount == b[|b| - 1].matchCount
    requires WithCount(a, a[|a| - 1].matchCount) == WithCount(b, a[|a| - 1].matchCount)
    ensures a[|a| - 1] == b[|b| - 1]
  {
    var n := |a| - 1;
    var x, y := a[n], b[n];
    var m := x.matchCount;
    var wa, wb := WithCount(a, m), WithCount(b, m);
    assert wa == WithCount(a[..n], m) + [x];
    assert wb == WithCount(b[..n], m) + [y];
    assert wa[|wa| - 1] == x;
    assert wb[|wb| - 1] == y;
  }

  /** Removing the same last recipe from two lists keeps their groups in agreement. */
  lemma DropLastGroups(a: seq<Recipe>, b: seq<Recipe>, n: nat)
    requires n + 1 == |a| == |b| && a[n] == b[n]
    requires forall k :: WithCount(a, k) == WithCount(b, k)
    ensures forall k :: WithCount(a[..n], k) == WithCount(b[..n], k)
  {
    var x := a[n];
    var a', b' := a[..n], b[..n];
    forall k ensures WithCount(a', k) == WithCount(b', k) {
      var wa, wb := WithCount(a', k), WithCount(b', k);
      var tail := if x.matchCount == k then [x] else [];
      assert WithCount(a, k) == wa + tail;
      assert WithCount(b, k) == wb + tail;
      assert |wa| == |wb|;
      assert wa == (wa + tail)[..|wa|];
      assert wb == (wb + tail)[..|wb|];
    }
  }

  /** Removing the same last recipe from two lists with the same elements leaves the same elements. */
  lemma MultisetDropLast(a: seq<Recipe>, b: seq<Recipe>)
    requires a != [] && b != [] && a[|a| - 1] == b[|b| - 1]
    requires multiset(a) == multiset(b)
    ensures multiset(a[..|a| - 1]) == multiset(b[..|b| - 1])
  {
    var x := a[|a| - 1];
    var a', b' := a[..|a| - 1], b[..|b| - 1];
    assert a' + [x] == a;
    assert b' + [x] == b;
    assert multiset(a) == multiset(a') + multiset{x};
    assert multiset(b) == multiset(b') + multiset{x};
    forall r ensures multiset(a')[r] == multiset(b')[r] {
      assert multiset(a)[r] == multiset(b)[r];
    }
  }

  /** A prefix of a sorted list is sorted. */
  lemma SortedPrefix(a: seq<Recipe>, n: nat)
    requires SortedByMatchDesc(a) && n <= |a|
    ensures SortedByMatchDesc(a[..n])
  {
  }

  /** Two sorted lists with the same elements and groups agree on their last recipe and on the rest. */
  lemma DropLast(a: seq<Recipe>, b: seq<Recipe>, n: nat)
    requires n + 1 == |a| && SortedByMatchDesc(a) && SortedByMatchDesc(b)
    requires multiset(a) == multiset(b)
    requires forall k :: WithCount(a, k) == WithCount(b, k)
    ensures |a| == |b| && a[n] == b[n]
    ensures SortedByMatchDesc(a[..n]) && SortedByMatchDesc(b[..n])
    ensures multiset(a[..n]) == multiset(b[..n])
    ensures forall k :: WithCount(a[..n], k) == WithCount(b[..n], k)
  {
    SameLastCount(a, b);
    SameLast(a, b);
    MultisetDropLast(a, b);
    DropLastGroups(a, b, n);
    SortedPrefix(a, n);
    SortedPrefix(b, n);
  }

  /** A sorted list is determined by its elements and by the order within each group. */
  lemma {:induction false} SortedDeterminedByGroups(a: seq<Recipe>, b: seq<Recipe>)
    requires SortedByMatchDesc(a) && SortedByMatchDesc(b)
    requires multiset(a) == multiset(b)
    requires forall k :: WithCount(a, k) == WithCount(b, k)
    ensures a == b
    decreases |a|
  {
    if a == [] {
      assert |b| == |multiset(b)| == 0;
    } else {
      var n := |a| - 1;
      DropLast(a, b, n);
      SortedDeterminedByGroups(a[..n], b[..n]);
      assert a == a[..n] + [a[n]];
      assert b == b[..n] + [b[n]];
    }
  }

  /**
   * The three properties leave one answer: two stable descending sorts of
   * the same list are equal, so they pin down what Python's sort returns.
   */
  lemma StableSortUnique(rs: seq<Recipe>, a: seq<Recipe>, b: seq<Recipe>)
    requires IsStableSortDesc(rs, a) && IsStableSortDesc(rs, b)
    ensures a == b
  {
    SortedDeterminedByGroups(a, b);
  }
}
