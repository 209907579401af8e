/** Every ordered pair of a sequence's elements, taken in sequence order:
    for each position i, the pairs (a[i], a[j]) for every later position j,
    the rows of all positions concatenated. */
module Pairs {

  /** The pairs that start at position `i`: `a[i]` with each later element. */
  function Row<T>(a: seq<T>, i: nat): seq<(T, T)>
    requires i < |a|
  {
    seq(|a| - i - 1, m requires 0 <= m < |a| - i - 1 => (a[i], a[i + 1 + m]))
  }

  /** The rows of positions `i` onward, concatenated in order. */
  function PairsFrom<T>(a: seq<T>, i: nat): seq<(T, T)>
    requires i <= |a|
    decreases |a| - i
  {
    if i == |a| then [] else Row(a, i) + PairsFrom(a, i + 1)
  }

  /** For each position i in order, a[i] paired with every later element,
      the rows concatenated: one pair per two positions i < j. */
  function PickPairsWithSameOrder<T>(a: seq<T>): (r: seq<(T, T)>)
    ensures |r| == Triangle(|a|)
  {
    PairsFromLength(a, 0);
    PairsFrom(a, 0)
  }

  /** The number of pairs i < j among `m` positions. */
  function Triangle(m: nat): nat {
    if m == 0 then 0 else Triangle(m - 1) + (m - 1)
  }

  lemma {:induction false} TriangleClosedForm(m: nat)
    ensures 2 * Triangle(m) == m * (m - 1)
  {
    if m > 0 {
      TriangleClosedForm(m - 1);
      assert m * (m - 1) == (m - 1) * (m - 2) + 2 * (m - 1);
    }
  }

  /** Where the pair of positions (i, j) sits in the result for `n` elements:
      after the rows of every earlier position, then j - i - 1 into row i. */
  function PairIndex(n: nat, i: nat, j: nat): int
    requires i < j < n
  {
    Triangle(n) - Triangle(n - i) + (j - i - 1)
  }

  lemma {:induction false} TriangleMonotone(m: nat, m': nat)
    requires m <= m'
    ensures Triangle(m) <= Triangle(m')
    decreases m' - m
  {
    if m < m' {
      TriangleMonotone(m, m' - 1);
    }
  }

  lemma {:induction false} PairsFromLength<T>(a: seq<T>, i: nat)
    requires i <= |a|
    ensures |PairsFrom(a, i)| == Triangle(|a| - i)
    decreases |a| - i
  {
    if i < |a| {
      PairsFromLength(a, i + 1);
      assert |Row(a, i)| == |a| - i - 1;
      assert PairsFrom(a, i) == Row(a, i) + PairsFrom(a, i + 1);
    }
  }

  /** n elements give n·(n−1)/2 pairs. */
  lemma PickPairsLength<T>(a: seq<T>)
    ensures 2 * |PickPairsWithSameOrder(a)| == |a| * (|a| - 1)
  {
    PairsFromLength(a, 0);
    TriangleClosedForm(|a|);
  }

  lemma {:induction false} PairsFromAt<T>(a: seq<T>, i0: nat, i: nat, j: nat)
    requires i0 <= i < j < |a|
    ensures Triangle(|a| - i) <= Triangle(|a| - i0)
    ensures Triangle(|a| - i0) - Triangle(|a| - i) + (j - i - 1) < |PairsFrom(a, i0)|
    ensures PairsFrom(a, i0)[Triangle(|a| - i0) - Triangle(|a| - i) + (j - i - 1)] == (a[i], a[j])
    decreases i - i0
  {
    var n := |a|;
    var row, rest := Row(a, i0), PairsFrom(a, i0 + 1);
    assert PairsFrom(a, i0) == row + rest;
    assert |row| == n - i0 - 1;
    if i0 == i {
      assert row[j - i - 1] == (a[i], a[j]);
    } else {
      PairsFromAt(a, i0 + 1, i, j);
      assert Triangle(n - i0) == Triangle(n - i0 - 1) + (n - i0 - 1);
    }
  }

  /** The pair of positions (i, j), i < j, is (a[i], a[j]) at PairIndex(|a|, i, j). */
  lemma PickPairsAt<T>(a: seq<T>, i: nat, j: nat)
    requires i < j < |a|
    ensures 0 <= PairIndex(|a|, i, j) < |PickPairsWithSameOrder(a)|
    ensures PickPairsWithSameOrder(a)[PairIndex(|a|, i, j)] == (a[i], a[j])
  {
    TriangleMonotone(|a| - i, |a|);
    PairsFromAt(a, 0, i, j);
  }

  /** Positions are ordered by the first index, then by the second. */
  lemma PairIndexIncreasing(n: nat, i: nat, j: nat, i': nat, j': nat)
    requires i < j < n && i' < j' < n
    requires i < i' || (i == i' && j < j')
    ensures PairIndex(n, i, j) < PairIndex(n, i', j')
  {
    if i < i' {
      TriangleMonotone(n - i', n - i - 1);
    }
  }

  lemma {:induction false} PairsFromOnlyOrderedPairs<T>(a: seq<T>, i0: nat, p: (T, T))
    requires i0 <= |a| && p in PairsFrom(a, i0)
    ensures exists i, j :: i0 <= i < j < |a| && p == (a[i], a[j])
    decreases |a| - i0
  {
    if p in Row(a, i0) {
      var m :| 0 <= m < |Row(a, i0)| && Row(a, i0)[m] == p;
      assert p == (a[i0], a[i0 + 1 + m]);
    } else {
      PairsFromOnlyOrderedPairs(a, i0 + 1, p);
    }
  }

  /** Nothing else is in the result: each element is (a[i], a[j]) for some i < j. */
  lemma PickPairsOnlyOrderedPairs<T>(a: seq<T>, p: (T, T))
    requires p in PickPairsWithSameOrder(a)
    ensures exists i, j :: 0 <= i < j < |a| && p == (a[i], a[j])
  {
    PairsFromOnlyOrderedPairs(a, 0, p);
  }

  /** The example the source checks: [1, 2, 3] gives [1, 2], [1, 3], [2, 3]. */
  lemma PickPairsOfThree()
    ensures PickPairsWithSameOrder([1, 2, 3]) == [(1, 2), (1, 3), (2, 3)]
  {
    var a := [1, 2, 3];
    assert Row(a, 0) == [(1, 2), (1, 3)];
    assert Row(a, 1) == [(2, 3)];
    assert Row(a, 2) == [];
  }
}
