/** The upper-triangular layout of a ruler's distances: row `i` holds the
    distances from mark `i` to every later mark, rows follow one another in
    order. This module defines the layout and proves where each pair lands in
    it and how many entries precede each row. */
module Triangular {
  import opened DistanceMath
  import opened Golomb

  /** Row `i`: the distances from mark `i` to marks `i + 1 ..`, in order. */
  function Row(s: seq<int>, i: nat): seq<int>
    requires i < |s|
  {
    seq(|s| - 1 - i, k requires 0 <= k < |s| - 1 - i => Dist(s[i], s[i + 1 + k]))
  }

  /** Rows `0 .. r - 1`, one after the other. */
  function RowsBefore(s: seq<int>, r: nat): seq<int>
    requires r <= |s|
  {
    if r == 0 then [] else RowsBefore(s, r - 1) + Row(s, r - 1)
  }

  /** The whole layout: every distance `|s[i] - s[j]|`, `i < j`, row by row. */
  function Triu(s: seq<int>): seq<int> {
    RowsBefore(s, |s|)
  }

  /** `Σ_{k < r} (n - 1 - k)`. For `r <= n` this is the number of entries
      rows `0 .. r - 1` hold when the ruler has `n` marks. */
  function SumBefore(n: int, r: nat): int {
    if r == 0 then 0 else SumBefore(n, r - 1) + (n - r)
  }

  lemma {:induction false} RowsBeforeLength(s: seq<int>, r: nat)
    requires r <= |s|
    ensures |RowsBefore(s, r)| == SumBefore(|s|, r)
  {
    if r > 0 {
      RowsBeforeLength(s, r - 1);
    }
  }

  /** Earlier rows form a prefix of later ones. */
  lemma {:induction false} RowsBeforePrefix(s: seq<int>, a: nat, b: nat)
    requires a <= b <= |s|
    ensures RowsBefore(s, a) <= RowsBefore(s, b)
  {
    if a < b {
      RowsBeforePrefix(s, a, b - 1);
      var before, row := RowsBefore(s, b - 1), Row(s, b - 1);
      assert RowsBefore(s, b) == before + row;
      assert RowsBefore(s, a) == (before + row)[..|RowsBefore(s, a)|];
    }
  }

  /** The rows before `i` followed by the first `m` entries of row `i` are a
      prefix of the layout. */
  lemma PartialRowPrefix(s: seq<int>, i: nat, m: nat)
    requires i < |s| && m <= |s| - 1 - i
    ensures RowsBefore(s, i) + Row(s, i)[..m] <= Triu(s)
  {
    RowsBeforePrefix(s, i + 1, |s|);
    assert RowsBefore(s, i) + Row(s, i)[..m] <= RowsBefore(s, i + 1);
  }

  /** Twice the row sum in closed form: `2 Σ_{k<r}(n-1-k) == r (2n - 1 - r)`. */
  lemma {:induction false} SumBeforeClosed(n: int, r: nat)
    ensures 2 * SumBefore(n, r) == r * (2 * n - 1 - r)
  {
    if r > 0 {
      SumBeforeClosed(n, r - 1);
      assert r * (2 * n - 1 - r) == (r - 1) * (2 * n - 1 - (r - 1)) + 2 * (n - r);
    }
  }

  /** The source's closed form for the entries before row `r`,
      `-(i*i // 2) + i*(2n+1) // 2 - n` with `i = r + 1`, is the row sum
      exactly: `i*i` and `i*(2n+1)` have the same parity, so the two floor
      halvings lose nothing between them. */
  lemma ClosedForm(n: int, r: nat)
    ensures -Half((r + 1) * (r + 1)) + Half((r + 1) * (2 * n + 1)) - n == SumBefore(n, r)
  {
    var i := r + 1;
    var a, b := i * i, i * (2 * n + 1);
    SumBeforeClosed(n, r);
    assert b - a == i * (2 * n + 1 - i);
    assert i * (2 * n + 1 - i) == r * (2 * n - 1 - r) + 2 * n;
    assert b - a == 2 * (SumBefore(n, r) + n);
    assert 2 * Half(a) + a % 2 == a && 2 * Half(b) + b % 2 == b;
    assert a % 2 == b % 2;
  }

  /** The row sum grows with the row while rows are non-empty. */
  lemma {:induction false} SumBeforeMonotone(n: int, a: nat, b: nat)
    requires a <= b <= n
    ensures SumBefore(n, a) <= SumBefore(n, b)
  {
    if a < b {
      SumBeforeMonotone(n, a, b - 1);
    }
  }

  /** Pair `(i, j)` sits at entry `SumBefore(n, i) + (j - i - 1)`. */
  lemma TriuAt(s: seq<int>, i: nat, j: nat)
    requires i < j < |s|
    ensures 0 <= SumBefore(|s|, i) + (j - i - 1) < |Triu(s)|
    ensures Triu(s)[SumBefore(|s|, i) + (j - i - 1)] == Dist(s[i], s[j])
  {
    RowsBeforeLength(s, i);
    RowsBeforePrefix(s, i + 1, |s|);
    var p := RowsBefore(s, i + 1);
    assert p == RowsBefore(s, i) + Row(s, i);
    assert p[SumBefore(|s|, i) + (j - i - 1)] == Row(s, i)[j - i - 1];
  }

  /** Every entry of the rows before `r` is the distance of one pair `(i, j)`
      with `i < r`, at the position TriuAt gives. */
  lemma {:induction false} RowsBeforePairOf(s: seq<int>, r: nat, t: nat) returns (i: nat, j: nat)
    requires r <= |s| && t < |RowsBefore(s, r)|
    ensures i < r && i < j < |s|
    ensures t == SumBefore(|s|, i) + (j - i - 1)
    ensures RowsBefore(s, r)[t] == Dist(s[i], s[j])
  {
    var prev := RowsBefore(s, r - 1);
    if t < |prev| {
      i, j := RowsBeforePairOf(s, r - 1, t);
    } else {
      RowsBeforeLength(s, r - 1);
      i := r - 1;
      j := i + 1 + (t - |prev|);
      assert RowsBefore(s, r)[t] == Row(s, i)[t - |prev|];
    }
  }

  /** Every entry of the layout is the distance of exactly the pair whose
      position is computed by TriuAt. */
  lemma TriuPairOf(s: seq<int>, t: nat) returns (i: nat, j: nat)
    requires t < |Triu(s)|
    ensures i < j < |s|
    ensures t == SumBefore(|s|, i) + (j - i - 1)
    ensures Triu(s)[t] == Dist(s[i], s[j])
  {
    i, j := RowsBeforePairOf(s, |s|, t);
  }

  /** Pairs in row-major order land at strictly increasing positions. */
  lemma PositionsOrdered(n: nat, i: nat, j: nat, k: nat, l: nat)
    requires i < j < n && k < l < n
    requires i < k || (i == k && j < l)
    ensures SumBefore(n, i) + (j - i - 1) < SumBefore(n, k) + (l - k - 1)
  {
    if i < k {
      SumBeforeMonotone(n, i + 1, k);
    }
  }

  /** The layout holds `n (n - 1) / 2` entries. */
  lemma TriuLength(s: seq<int>)
    ensures |Triu(s)| == SumBefore(|s|, |s|) == |s| * (|s| - 1) / 2
  {
    RowsBeforeLength(s, |s|);
    SumBeforeClosed(|s|, |s|);
  }

  /** The layout has no repeated entry exactly when the ruler's pairwise
      distances are all different. */
  lemma TriuDistinctIff(s: seq<int>)
    ensures Distinct(Triu(s)) <==> DistinctDistances(s)
  {
    var n := |s|;
    if Distinct(Triu(s)) {
      forall i, j, k, l | 0 <= i < j < n && 0 <= k < l < n && Dist(s[i], s[j]) == Dist(s[k], s[l])
        ensures i == k && j == l
      {
        TriuAt(s, i, j);
        TriuAt(s, k, l);
        if i < k || (i == k && j < l) {
          PositionsOrdered(n, i, j, k, l);
        } else if k < i || (i == k && l < j) {
          PositionsOrdered(n, k, l, i, j);
        }
      }
    }
    if DistinctDistances(s) {
      forall p, q | 0 <= p < q < |Triu(s)| ensures Triu(s)[p] != Triu(s)[q] {
        var i, j := TriuPairOf(s, p);
        var k, l := TriuPairOf(s, q);
      }
    }
  }

  /** The layout holds exactly the ruler's distance set. */
  lemma TriuElems(s: seq<int>)
    ensures Elems(Triu(s)) == DistanceSet(s)
  {
    forall x | x in Elems(Triu(s)) ensures x in DistanceSet(s) {
      var t :| 0 <= t < |Triu(s)| && Triu(s)[t] == x;
      var i, j := TriuPairOf(s, t);
    }
    forall x | x in DistanceSet(s) ensures x in Elems(Triu(s)) {
      var i, j :| 0 <= i < j < |s| && x == Dist(s[i], s[j]);
      TriuAt(s, i, j);
      assert Triu(s)[SumBefore(|s|, i) + (j - i - 1)] in Triu(s);
    }
  }
}
