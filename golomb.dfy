/** What a Golomb ruler is, stated directly over pairs of mark positions,
    and the facts about extending a ruler by one mark that both generators
    rely on. */
module Golomb {
  import opened DistanceMath

  /** Every mark is non-negative. */
  predicate NonNegative(s: seq<int>) {
    forall k :: 0 <= k < |s| ==> s[k] >= 0
  }

  /** Two position pairs `i < j` and `k < l` with the same distance are the
      same pair. */
  predicate DistinctDistances(s: seq<int>) {
    forall i, j, k, l ::
      0 <= i < j < |s| && 0 <= k < l < |s| && Dist(s[i], s[j]) == Dist(s[k], s[l]) ==>
        i == k && j == l
  }

  /** A Golomb ruler: non-negative marks whose pairwise distances are all
      different. */
  predicate IsGolomb(s: seq<int>) {
    NonNegative(s) && DistinctDistances(s)
  }

  /** The set of distances `|s[i] - s[j]|` over all position pairs `i < j`. */
  function DistanceSet(s: seq<int>): set<int> {
    set i, j | 0 <= i < j < |s| :: Dist(s[i], s[j])
  }

  predicate StrictlyIncreasing(s: seq<int>) {
    forall p, q :: 0 <= p < q < |s| ==> s[p] < s[q]
  }

  /** No value occurs twice in `t`. */
  predicate Distinct(t: seq<int>) {
    forall p, q :: 0 <= p < q < |t| ==> t[p] != t[q]
  }

  function Elems(t: seq<int>): set<int> {
    set x | x in t
  }

  /** A value that repeats inside a prefix of `t` makes `t` not distinct. */
  lemma RepeatInPrefix(p: seq<int>, d: int, t: seq<int>)
    requires p + [d] <= t && d in p
    ensures !Distinct(t)
  {
    var k :| 0 <= k < |p| && p[k] == d;
    assert t[k] == d && t[|p|] == d;
  }

  /** Part of the last piece of a prefix is still a prefix. */
  lemma PrefixThrough(a: seq<int>, b: seq<int>, c: seq<int>, m: nat)
    requires a + b <= c && m <= |b|
    ensures a + b[..m] <= c
  {
    assert a + b[..m] == (a + b)[..|a| + m];
  }

  /** A value not yet seen keeps the seen values distinct and joins their set. */
  lemma AddNew(seen: seq<int>, d: int)
    requires Distinct(seen) && d !in Elems(seen)
    ensures Distinct(seen + [d]) && Elems(seen + [d]) == Elems(seen) + {d}
  {
    var t := seen + [d];
    forall p, q | 0 <= p < q < |t| ensures t[p] != t[q] {
      if q == |seen| {
        assert t[p] in seen;
      }
    }
  }

  /** Every distance of a strictly increasing non-negative sequence lies in
      `1 .. last mark`. */
  lemma DistanceBound(s: seq<int>, x: int)
    requires |s| >= 1 && NonNegative(s) && StrictlyIncreasing(s)
    requires x in DistanceSet(s)
    ensures 0 < x <= s[|s| - 1]
  {
    var i, j :| 0 <= i < j < |s| && x == Dist(s[i], s[j]);
    assert s[j] <= s[|s| - 1];
  }

  /** Appending a mark beyond the last one whose distances to the old marks
      are all new keeps a strictly increasing sequence a Golomb ruler. */
  lemma ExtendIsGolomb(r: seq<int>, x: int)
    requires |r| >= 1 && IsGolomb(r) && StrictlyIncreasing(r)
    requires x > r[|r| - 1]
    requires forall i :: 0 <= i < |r| ==> Dist(x, r[i]) !in DistanceSet(r)
    ensures IsGolomb(r + [x]) && StrictlyIncreasing(r + [x])
  {
    ExtendIncreasing(r, x);
    ExtendDistinct(r, x);
  }

  lemma ExtendIncreasing(r: seq<int>, x: int)
    requires |r| >= 1 && NonNegative(r) && StrictlyIncreasing(r)
    requires x > r[|r| - 1]
    ensures NonNegative(r + [x]) && StrictlyIncreasing(r + [x])
  {
    var t := r + [x];
    forall p, q | 0 <= p < q < |t| ensures t[p] < t[q] {
      if q < |r| {
        assert t[p] == r[p] && t[q] == r[q];
      } else {
        assert r[p] <= r[|r| - 1];
      }
    }
    forall p | 0 <= p < |t| ensures t[p] >= 0 {
      if p < |r| {
        assert t[p] == r[p];
      } else {
        assert r[0] <= r[|r| - 1];
      }
    }
  }

  lemma ExtendDistinct(r: seq<int>, x: int)
    requires |r| >= 1 && DistinctDistances(r) && StrictlyIncreasing(r)
    requires x > r[|r| - 1]
    requires forall i :: 0 <= i < |r| ==> Dist(x, r[i]) !in DistanceSet(r)
    ensures DistinctDistances(r + [x])
  {
    var t := r + [x];
    forall i, j, k, l | 0 <= i < j < |t| && 0 <= k < l < |t| && Dist(t[i], t[j]) == Dist(t[k], t[l])
      ensures i == k && j == l
    {
      if j < |r| && l < |r| {
        OldPair(r, x, i, j, k, l);
      } else if j == |r| && l == |r| {
        NewAgainstNew(r, x, i, k);
      } else if j == |r| {
        NewAgainstOld(r, x, i, k, l);
        assert false;
      } else {
        NewAgainstOld(r, x, k, i, j);
        assert false;
      }
    }
  }

  lemma OldPair(r: seq<int>, x: int, i: nat, j: nat, k: nat, l: nat)
    requires DistinctDistances(r)
    requires i < j < |r| && k < l < |r| && Dist((r + [x])[i], (r + [x])[j]) == Dist((r + [x])[k], (r + [x])[l])
    ensures i == k && j == l
  {
    var t := r + [x];
    assert t[i] == r[i] && t[j] == r[j] && t[k] == r[k] && t[l] == r[l];
  }

  lemma NewAgainstNew(r: seq<int>, x: int, i: nat, k: nat)
    requires StrictlyIncreasing(r)
    requires i < |r| && k < |r| && x > r[|r| - 1]
    requires Dist((r + [x])[i], (r + [x])[|r|]) == Dist((r + [x])[k], (r + [x])[|r|])
    ensures i == k
  {
    var t := r + [x];
    assert t[i] == r[i] && t[k] == r[k] && t[|r|] == x;
    assert r[i] <= r[|r| - 1] && r[k] <= r[|r| - 1];
    assert r[i] == r[k];
  }

  lemma NewAgainstOld(r: seq<int>, x: int, i: nat, k: nat, l: nat)
    requires forall i :: 0 <= i < |r| ==> Dist(x, r[i]) !in DistanceSet(r)
    requires i < |r| && k < l < |r|
    ensures Dist((r + [x])[i], (r + [x])[|r|]) != Dist((r + [x])[k], (r + [x])[l])
  {
    var t := r + [x];
    assert t[i] == r[i] && t[|r|] == x && t[k] == r[k] && t[l] == r[l];
    assert Dist(r[k], r[l]) in DistanceSet(r);
  }

  /** A mark beyond twice the last mark has only distances larger than any
      existing one, so none of them is already taken. */
  lemma BeyondDoubleIsNew(r: seq<int>, x: int)
    requires |r| >= 1 && NonNegative(r) && StrictlyIncreasing(r)
    requires x > 2 * r[|r| - 1]
    ensures x > r[|r| - 1] && x !in r
    ensures forall i :: 0 <= i < |r| ==> Dist(x, r[i]) !in DistanceSet(r)
  {
    var last := r[|r| - 1];
    forall i | 0 <= i < |r| ensures Dist(x, r[i]) !in DistanceSet(r) {
      assert r[i] <= last;
      if Dist(x, r[i]) in DistanceSet(r) {
        DistanceBound(r, Dist(x, r[i]));
      }
    }
    forall i | 0 <= i < |r| ensures r[i] != x {
      assert r[i] <= last;
    }
  }
}
