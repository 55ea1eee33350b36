/** The two ruler generators: the naive doubling recurrence and the greedy
    first-fit extension. */
module Generators {
  import opened DistanceMath
  import opened Golomb
  import opened Validator

  function Pow2(k: nat): (p: nat)
    ensures p >= 1
  {
    if k == 0 then 1 else 2 * Pow2(k - 1)
  }

  /** `generate_golomb_ruler_naive`: the ruler of order `order - 1` with
      `2^(order-1) - 1` appended. Each new mark lies beyond twice the previous
      last mark, so it never repeats a distance. */
  method GenerateNaive(order: nat) returns (r: seq<int>)
    requires order >= 1
    ensures |r| == order
    ensures forall k :: 0 <= k < order ==> r[k] == Pow2(k) - 1
    ensures StrictlyIncreasing(r) && IsGolomb(r)
  {
    if order == 1 {
      return [0];
    }
    var prev := GenerateNaive(order - 1);
    var next := Pow2(order - 1) - 1;
    BeyondDoubleIsNew(prev, next);
    ExtendIsGolomb(prev, next);
    prev := prev + [next];
    return prev;
  }

  /** A candidate mark `c` for extending `prev`: not already a mark, and no
      distance from `c` to a mark is already a distance of `prev`. */
  predicate Accepted(prev: seq<int>, c: int) {
    c !in prev && forall i :: 0 <= i < |prev| ==> Dist(c, prev[i]) !in DistanceSet(prev)
  }

  /** `c` is the first accepted candidate of the scan window
      `prev[-1] .. 2 * prev[-1] + 1`. */
  predicate IsFirstFit(prev: seq<int>, c: int)
    requires |prev| >= 1
  {
    var last := prev[|prev| - 1];
    last <= c <= 2 * last + 1 && Accepted(prev, c) &&
    forall c' :: last <= c' < c ==> !Accepted(prev, c')
  }

  /** The window's upper end `2 * prev[-1] + 1` is always accepted. */
  lemma UpperBoundAccepted(prev: seq<int>)
    requires |prev| >= 1 && IsGolomb(prev) && StrictlyIncreasing(prev)
    ensures Accepted(prev, 2 * prev[|prev| - 1] + 1)
  {
    BeyondDoubleIsNew(prev, 2 * prev[|prev| - 1] + 1);
  }

  /** Scanning upwards from `c` reaches a first fit. */
  lemma {:induction false} FirstFitFrom(prev: seq<int>, c: int)
    requires |prev| >= 1 && IsGolomb(prev) && StrictlyIncreasing(prev)
    requires prev[|prev| - 1] <= c <= 2 * prev[|prev| - 1] + 1
    requires forall c' :: prev[|prev| - 1] <= c' < c ==> !Accepted(prev, c')
    ensures exists f :: IsFirstFit(prev, f)
    decreases 2 * prev[|prev| - 1] + 1 - c
  {
    if Accepted(prev, c) {
      assert IsFirstFit(prev, c);
    } else {
      UpperBoundAccepted(prev);
      FirstFitFrom(prev, c + 1);
    }
  }

  /** There is exactly one first fit. */
  lemma FirstFitUnique(prev: seq<int>, c: int, d: int)
    requires |prev| >= 1 && IsFirstFit(prev, c) && IsFirstFit(prev, d)
    ensures c == d
  {
  }

  /** The mark the greedy generator appends to `prev`. */
  ghost function FirstFit(prev: seq<int>): (c: int)
    requires |prev| >= 1 && IsGolomb(prev) && StrictlyIncreasing(prev)
    ensures IsFirstFit(prev, c)
  {
    FirstFitFrom(prev, prev[|prev| - 1]);
    var c :| IsFirstFit(prev, c);
    c
  }

  /** The ruler the greedy generator returns for `order`: the hand-picked
      rulers for orders 1 to 3, and otherwise the ruler of order `order - 1`
      extended by its first fit. It is a strictly increasing Golomb ruler of
      `order` marks starting at 0. */
  ghost function ImprovedRuler(order: nat): (r: seq<int>)
    requires order >= 1
    ensures |r| == order && r[0] == 0
    ensures StrictlyIncreasing(r) && IsGolomb(r)
  {
    if order == 1 then [0]
    else if order == 2 then OrderTwoRuler([0, 1]); [0, 1]
    else if order == 3 then OrderThreeRuler([0, 1, 3]); [0, 1, 3]
    else
      var prev := ImprovedRuler(order - 1);
      var c := FirstFit(prev);
      ExtendIsGolomb(prev, c);
      prev + [c]
  }

  /** The hand-picked ruler `[0, 1]` is a Golomb ruler: `[0]` extended by a
      mark beyond twice its last one. */
  lemma OrderTwoRuler(s: seq<int>)
    requires |s| == 2 && s[0] == 0 && s[1] == 1
    ensures IsGolomb(s) && StrictlyIncreasing(s)
  {
    var one := s[..1];
    BeyondDoubleIsNew(one, 1);
    ExtendIsGolomb(one, 1);
    assert s == one + [1];
  }

  /** The hand-picked ruler `[0, 1, 3]` is a Golomb ruler: `[0, 1]` extended
      by a mark beyond twice its last one. */
  lemma OrderThreeRuler(s: seq<int>)
    requires |s| == 3 && s[0] == 0 && s[1] == 1 && s[2] == 3
    ensures IsGolomb(s) && StrictlyIncreasing(s)
  {
    var two := s[..2];
    OrderTwoRuler(two);
    BeyondDoubleIsNew(two, 3);
    ExtendIsGolomb(two, 3);
    assert s == two + [3];
  }

  /** `should_accept_candidate`: true when no distance from `candidate` to a
      mark of `prev` is in `distances`; false at the first one that is. */
  method ShouldAcceptCandidate(prev: seq<int>, distances: set<int>, candidate: int) returns (accept: bool)
    ensures accept <==> forall i :: 0 <= i < |prev| ==> Dist(candidate, prev[i]) !in distances
  {
    for i := 0 to |prev|
      invariant forall k :: 0 <= k < i ==> Dist(candidate, prev[k]) !in distances
    {
      if Dist(candidate, prev[i]) in distances {
        return false;
      }
    }
    return true;
  }

  /** `generate_golomb_ruler_improved`: for orders above 3, scan the
      candidates `prev[-1] ..= 2 * prev[-1] + 1` and append the first one
      accepted. */
  method GenerateImproved(order: nat) returns (r: seq<int>)
    requires order >= 1
    ensures r == ImprovedRuler(order)
  {
    if order == 1 {
      return [0];
    }
    if order == 2 {
      return [0, 1];
    }
    if order == 3 {
      return [0, 1, 3];
    }
    var prev := GenerateImproved(order - 1);
    var distances := ComputeDistances(prev);
    assert prev == ImprovedRuler(order - 1);
    assert |prev| >= 1 && IsGolomb(prev) && StrictlyIncreasing(prev);
    var c := ScanCandidates(prev, distances);
    ImprovedStep(order, prev, c);
    r := prev + [c];
  }

  /** The scan of `generate_golomb_ruler_improved`: skip the candidates that
      are already marks, and return the first one `should_accept_candidate`
      accepts. The scan always succeeds, so the implementation error raised
      after it cannot happen. */
  method ScanCandidates(prev: seq<int>, distances: set<int>) returns (c: int)
    requires |prev| >= 1 && IsGolomb(prev) && StrictlyIncreasing(prev)
    requires distances == DistanceSet(prev)
    ensures IsFirstFit(prev, c)
  {
    var last := prev[|prev| - 1];
    var candidateUpperBound := 2 * last + 1;
    UpperBoundAccepted(prev);
    for candidate := last to candidateUpperBound + 1
      invariant forall c' :: last <= c' < candidate ==> !Accepted(prev, c')
    {
      if candidate in prev {
        NotAcceptedStep(prev, last, candidate);
        continue;
      }
      var accept := ShouldAcceptCandidate(prev, distances, candidate);
      if accept {
        assert Accepted(prev, candidate);
        return candidate;
      }
      NotAcceptedStep(prev, last, candidate);
    }
    assert false;
  }

  /** The first fit found by the scan is the mark ImprovedRuler appends. */
  lemma ImprovedStep(order: nat, prev: seq<int>, c: int)
    requires order >= 4 && prev == ImprovedRuler(order - 1)
    requires IsFirstFit(prev, c)
    ensures ImprovedRuler(order) == prev + [c]
  {
    FirstFitUnique(prev, c, FirstFit(prev));
  }

  /** A rejected candidate extends the rejected prefix of the scan. */
  lemma NotAcceptedStep(prev: seq<int>, last: int, c: int)
    requires forall c' :: last <= c' < c ==> !Accepted(prev, c')
    requires c in prev || exists i :: 0 <= i < |prev| && Dist(c, prev[i]) in DistanceSet(prev)
    ensures forall c' :: last <= c' < c + 1 ==> !Accepted(prev, c')
  {
  }

  /** The greedy ruler's shape: the hand-picked rulers up to order 3, and
      above that the previous order's ruler extended by its first fit. */
  lemma ImprovedRulerShape(order: nat)
    requires order >= 1
    ensures order == 1 ==> ImprovedRuler(order) == [0]
    ensures order == 2 ==> ImprovedRuler(order) == [0, 1]
    ensures order == 3 ==> ImprovedRuler(order) == [0, 1, 3]
    ensures order >= 4 ==>
      var r := ImprovedRuler(order);
      r[..order - 1] == ImprovedRuler(order - 1) && IsFirstFit(r[..order - 1], r[order - 1])
  {
    if order >= 4 {
      var r := ImprovedRuler(order);
      assert r[..order - 1] == ImprovedRuler(order - 1);
    }
  }

  /** The greedy ruler never reaches further than the naive one: its last
      mark is at most `2^(order-1) - 1`. */
  lemma {:induction false} ImprovedWithinNaive(order: nat)
    requires order >= 1
    ensures ImprovedRuler(order)[order - 1] <= Pow2(order - 1) - 1
  {
    if order >= 4 {
      ImprovedWithinNaive(order - 1);
      assert Pow2(order - 1) == 2 * Pow2(order - 2);
      assert ImprovedRuler(order)[order - 1] <= Pow2(order - 1) - 1;
    } else if order == 3 {
      assert Pow2(2) == 4;
      assert ImprovedRuler(order)[order - 1] <= Pow2(order - 1) - 1;
    } else if order == 2 {
      assert Pow2(1) == 2;
      assert ImprovedRuler(order)[order - 1] <= Pow2(order - 1) - 1;
    } else {
      assert ImprovedRuler(order)[order - 1] <= Pow2(order - 1) - 1;
    }
  }
}
