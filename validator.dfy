/** `is_golomb_ruler` and `compute_distances`: nested loops over the pairs
    `i < j` in row-major order, collecting distances in a set. */
module Validator {
  import opened DistanceMath
  import opened Golomb
  import opened Triangular

  /** `is_golomb_ruler`: false as soon as a mark is negative; otherwise false
      as soon as a distance repeats one seen earlier; true when the scan ends.
      The answer is exactly the Golomb property. */
  method IsGolombRuler(sequence: seq<int>) returns (b: bool)
    ensures b <==> IsGolomb(sequence)
  {
    for el := 0 to |sequence|
      invariant forall k :: 0 <= k < el ==> sequence[k] >= 0
    {
      if sequence[el] < 0 {
        return false;
      }
    }
    var differences: set<int> := {};
    ghost var seen: seq<int> := [];
    for lhsIndex := 0 to |sequence|
      invariant seen == RowsBefore(sequence, lhsIndex)
      invariant differences == Elems(seen) && Distinct(seen)
    {
      for rhsIndex := lhsIndex + 1 to |sequence|
        invariant seen == RowsBefore(sequence, lhsIndex) + Row(sequence, lhsIndex)[..rhsIndex - lhsIndex - 1]
        invariant differences == Elems(seen) && Distinct(seen)
      {
        var difference := Dist(sequence[lhsIndex], sequence[rhsIndex]);
        SeenGrows(sequence, lhsIndex, rhsIndex);
        if difference in differences {
          PartialRowPrefix(sequence, lhsIndex, rhsIndex - lhsIndex);
          RepeatInPrefix(seen, difference, Triu(sequence));
          TriuDistinctIff(sequence);
          return false;
        } else {
          AddNew(seen, difference);
          differences := differences + {difference};
          seen := seen + [difference];
        }
      }
      SeenGrows(sequence, lhsIndex, |sequence|);
    }
    TriuDistinctIff(sequence);
    return true;
  }

  /** One more step of the scan appends the next distance of the row to what
      has been seen; at the end of a row, the row is complete. */
  lemma SeenGrows(s: seq<int>, i: nat, j: nat)
    requires i < |s| && i < j <= |s|
    ensures j < |s| ==>
      RowsBefore(s, i) + Row(s, i)[..j - i] == RowsBefore(s, i) + Row(s, i)[..j - i - 1] + [Dist(s[i], s[j])]
    ensures j == |s| ==> RowsBefore(s, i) + Row(s, i)[..j - i - 1] == RowsBefore(s, i + 1)
  {
    var row := Row(s, i);
    if j < |s| {
      assert row[..j - i] == row[..j - i - 1] + [Dist(s[i], s[j])];
    } else {
      assert row[..j - i - 1] == row;
    }
  }

  /** `compute_distances`: the set of all pairwise distances, with no
      validation (repeated distances collapse). */
  method ComputeDistances(sequence: seq<int>) returns (distances: set<int>)
    ensures distances == DistanceSet(sequence)
  {
    distances := {};
    for lhsIndex := 0 to |sequence|
      invariant distances == Elems(RowsBefore(sequence, lhsIndex))
    {
      for rhsIndex := lhsIndex + 1 to |sequence|
        invariant distances == Elems(RowsBefore(sequence, lhsIndex) + Row(sequence, lhsIndex)[..rhsIndex - lhsIndex - 1])
      {
        SeenGrows(sequence, lhsIndex, rhsIndex);
        distances := distances + {Dist(sequence[lhsIndex], sequence[rhsIndex])};
      }
      SeenGrows(sequence, lhsIndex, |sequence|);
    }
    TriuElems(sequence);
  }
}
