/** The earlier standalone draft of the validator and the ruler class. Its
    `drop` keeps the elements that differ from their own position and never
    looks at the index it is given, so the draft validator compares every mark
    with that filtered list rather than with the other marks. */
module Draft {
  import Exceptions
  import opened DistanceMath
  import opened Golomb

  /** `drop(input, index_to_drop)`: the elements `x` at positions `idx` with
      `x != idx`, in their original order. `indexToDrop` is never used. */
  function Drop(input: seq<int>, indexToDrop: int): (r: seq<int>)
    ensures |r| <= |input|
  {
    if |input| == 0 then []
    else
      var last := |input| - 1;
      Drop(input[..last], indexToDrop) + (if input[last] != last then [input[last]] else [])
  }

  /** The result of `drop` does not depend on the index it is given. */
  lemma {:induction false} DropIgnoresIndex(input: seq<int>, a: int, b: int)
    ensures Drop(input, a) == Drop(input, b)
  {
    if |input| > 0 {
      DropIgnoresIndex(input[..|input| - 1], a, b);
    }
  }

  /** `drop` keeps exactly the positions whose element differs from the
      position, in increasing order: `pos` lists them. */
  lemma {:induction false} DropKeeps(input: seq<int>, k: int) returns (pos: seq<int>)
    ensures |pos| == |Drop(input, k)|
    ensures forall t :: 0 <= t < |pos| ==>
      0 <= pos[t] < |input| && input[pos[t]] != pos[t] && Drop(input, k)[t] == input[pos[t]]
    ensures forall t, u :: 0 <= t < u < |pos| ==> pos[t] < pos[u]
    ensures forall idx :: 0 <= idx < |input| && input[idx] != idx ==> idx in pos
  {
    if |input| == 0 {
      pos := [];
    } else {
      var last := |input| - 1;
      var front := input[..last];
      var p := DropKeeps(front, k);
      var kept, before := Drop(input, k), Drop(front, k);
      var tail := if input[last] != last then [input[last]] else [];
      assert kept == before + tail;
      pos := if input[last] != last then p + [last] else p;
      forall t | 0 <= t < |pos|
        ensures 0 <= pos[t] < |input| && input[pos[t]] != pos[t] && kept[t] == input[pos[t]]
      {
        if t < |p| {
          assert pos[t] == p[t] && kept[t] == before[t] && front[p[t]] == input[p[t]];
        } else {
          assert pos[t] == last && kept[t] == input[last];
        }
      }
      forall t, u | 0 <= t < u < |pos| ensures pos[t] < pos[u] {
        if u < |p| {
          assert pos[t] == p[t] && pos[u] == p[u];
        } else {
          assert pos[t] == p[t] < |front| == last == pos[u];
        }
      }
      forall idx | 0 <= idx < |input| && input[idx] != idx ensures idx in pos {
        if idx < last {
          assert front[idx] == input[idx];
          assert idx in p;
        } else {
          assert pos == p + [last];
        }
      }
    }
  }

  /** The differences the draft computes for mark `i`: its distance to each
      element of `drop(sequence, i)`. */
  function DraftRow(s: seq<int>, i: nat): seq<int>
    requires i < |s|
  {
    var dropped := Drop(s, i);
    seq(|dropped|, t requires 0 <= t < |dropped| => Dist(s[i], dropped[t]))
  }

  /** The rows of marks `0 .. r - 1`, in the order the draft computes them. */
  function DraftRowsBefore(s: seq<int>, r: nat): seq<int>
    requires r <= |s|
  {
    if r == 0 then [] else DraftRowsBefore(s, r - 1) + DraftRow(s, r - 1)
  }

  /** What the draft validator accepts: non-negative marks and no repeat
      among all the differences it computes. */
  predicate DraftAccepts(s: seq<int>) {
    NonNegative(s) && Distinct(DraftRowsBefore(s, |s|))
  }

  lemma {:induction false} DraftRowsBeforePrefix(s: seq<int>, a: nat, b: nat)
    requires a <= b <= |s|
    ensures DraftRowsBefore(s, a) <= DraftRowsBefore(s, b)
  {
    if a < b {
      DraftRowsBeforePrefix(s, a, b - 1);
      var before, row := DraftRowsBefore(s, b - 1), DraftRow(s, b - 1);
      assert DraftRowsBefore(s, b) == before + row;
      assert DraftRowsBefore(s, a) == (before + row)[..|DraftRowsBefore(s, a)|];
    }
  }

  /** `is_golomb_ruler` of the draft: false as soon as a mark is negative or a
      difference repeats; true when the scan ends. */
  method IsGolombRuler(sequence: seq<int>) returns (b: bool)
    ensures b <==> DraftAccepts(sequence)
  {
    for el := 0 to |sequence|
      invariant forall k :: 0 <= k < el ==> sequence[k] >= 0
    {
      if sequence[el] < 0 {
        return false;
      }
    }
    var differences: set<int> := {};
    ghost var seen: seq<int> := [];
    for lhsIndex := 0 to |sequence|
      invariant seen == DraftRowsBefore(sequence, lhsIndex)
      invariant differences == Elems(seen) && Distinct(seen)
    {
      var lhs := sequence[lhsIndex];
      var dropped := Drop(sequence, lhsIndex);
      ghost var row := DraftRow(sequence, lhsIndex);
      for t := 0 to |dropped|
        invariant seen == DraftRowsBefore(sequence, lhsIndex) + row[..t]
        invariant differences == Elems(seen) && Distinct(seen)
      {
        var difference := Dist(lhs, dropped[t]);
        DraftSeenGrows(sequence, lhsIndex, t);
        if difference in differences {
          DraftRepeatRejects(sequence, lhsIndex, t, seen, difference);
          return false;
        } else {
          AddNew(seen, difference);
          differences := differences + {difference};
          seen := seen + [difference];
        }
      }
      DraftSeenGrows(sequence, lhsIndex, |dropped|);
    }
    return true;
  }

  /** One more step of the draft's scan appends the next difference of the
      row; at the end of a row, the row is complete. */
  lemma DraftSeenGrows(s: seq<int>, i: nat, t: nat)
    requires i < |s| && t <= |DraftRow(s, i)|
    ensures t < |DraftRow(s, i)| ==>
      DraftRowsBefore(s, i) + DraftRow(s, i)[..t + 1] ==
        DraftRowsBefore(s, i) + DraftRow(s, i)[..t] + [Dist(s[i], Drop(s, i)[t])]
    ensures t == |DraftRow(s, i)| ==>
      DraftRowsBefore(s, i) + DraftRow(s, i)[..t] == DraftRowsBefore(s, i + 1)
  {
    var row := DraftRow(s, i);
    if t < |row| {
      assert row[..t + 1] == row[..t] + [Dist(s[i], Drop(s, i)[t])];
    } else {
      assert row[..t] == row;
    }
  }

  /** A difference already seen part way through the scan is a repeat among
      all the draft computes. */
  lemma DraftRepeatRejects(s: seq<int>, i: nat, t: nat, seen: seq<int>, d: int)
    requires i < |s| && t < |DraftRow(s, i)|
    requires seen == DraftRowsBefore(s, i) + DraftRow(s, i)[..t]
    requires seen + [d] == DraftRowsBefore(s, i) + DraftRow(s, i)[..t + 1]
    requires d in Elems(seen)
    ensures !DraftAccepts(s)
  {
    DraftPartialPrefix(s, i, t + 1);
    RepeatInPrefix(seen, d, DraftRowsBefore(s, |s|));
  }

  /** What the draft has seen so far is a prefix of all it will compute. */
  lemma DraftPartialPrefix(s: seq<int>, i: nat, m: nat)
    requires i < |s| && m <= |DraftRow(s, i)|
    ensures DraftRowsBefore(s, i) + DraftRow(s, i)[..m] <= DraftRowsBefore(s, |s|)
  {
    DraftRowsBeforePrefix(s, i + 1, |s|);
    PrefixThrough(DraftRowsBefore(s, i), DraftRow(s, i), DraftRowsBefore(s, |s|), m);
  }

  /** The draft's own `NotGolombRuler`. */
  datatype NotGolombRuler = NotGolombRuler(sequence: seq<int>)

  class GolombRuler {
    const sequence: seq<int>

    /** Storing the sequence; the checked path is Create. */
    constructor (sequence: seq<int>)
      ensures this.sequence == sequence
    {
      this.sequence := sequence;
    }

    /** `GolombRuler(sequence)` of the draft: fails with NotGolombRuler
        exactly when the draft validator rejects the sequence, and otherwise
        stores it unchanged. */
    static method Create(sequence: seq<int>) returns (r: Exceptions.Result<GolombRuler, NotGolombRuler>)
      ensures r.Err? <==> !DraftAccepts(sequence)
      ensures r.Err? ==> r.error == NotGolombRuler(sequence)
      ensures r.Ok? ==> r.value.sequence == sequence && r.value.Order() == |sequence|
    {
      var ok := IsGolombRuler(sequence);
      if !ok {
        return Exceptions.Err(NotGolombRuler(sequence));
      }
      var ruler := new GolombRuler(sequence);
      return Exceptions.Ok(ruler);
    }

    /** `order`: the number of marks. */
    function Order(): (n: nat)
      ensures n == |sequence|
    {
      |sequence|
    }
  }

  /** The draft accepts `[0, 1, 2]`, whose distances 1, 1, 2 repeat: every
      element sits at its own position, so `drop` leaves nothing to compare. */
  lemma DraftAcceptsNonRuler()
    ensures DraftAccepts([0, 1, 2]) && !IsGolomb([0, 1, 2])
  {
    var s := [0, 1, 2];
    assert s[..1] == [0] && s[..2] == [0, 1] && s[..2][..1] == [0];
    assert Drop(s[..1], 0) == [];
    assert Drop(s[..2], 0) == [];
    assert Drop(s, 0) == [];
    forall i | 0 <= i < 3 ensures DraftRow(s, i) == [] {
      DropIgnoresIndex(s, i, 0);
    }
    assert DraftRowsBefore(s, 1) == [];
    assert DraftRowsBefore(s, 2) == [];
    assert DraftRowsBefore(s, 3) == [];
    assert Dist(s[0], s[1]) == Dist(s[1], s[2]);
  }

  /** The draft rejects the Golomb ruler `[0, 2, 5]` (distances 2, 5, 3):
      `drop` keeps 2 and 5, and the draft computes `|2 - 5|` once with 2 on
      the left and again with 5 on the left. */
  lemma DraftRejectsRuler()
    ensures IsGolomb([0, 2, 5]) && !DraftAccepts([0, 2, 5])
  {
    RulerZeroTwoFive();
    var s := [0, 2, 5];
    DropZeroTwoFive(0);
    DropZeroTwoFive(1);
    DropZeroTwoFive(2);
    var r0, r1, r2 := DraftRow(s, 0), DraftRow(s, 1), DraftRow(s, 2);
    assert |r0| == 2 && r1[1] == 3 && r2[0] == 3;
    assert DraftRowsBefore(s, 1) == r0;
    assert DraftRowsBefore(s, 2) == r0 + r1;
    var all := DraftRowsBefore(s, 3);
    assert all == r0 + r1 + r2;
    assert all[3] == r1[1] && all[4] == r2[0];
  }

  /** `drop` keeps the marks 2 and 5 of `[0, 2, 5]`. */
  lemma DropZeroTwoFive(k: int)
    ensures Drop([0, 2, 5], k) == [2, 5]
  {
    var s := [0, 2, 5];
    assert s[..2] == [0, 2] && s[..2][..1] == [0] && [0][..0] == [];
    assert Drop([0], k) == [];
    assert Drop([0, 2], k) == [2];
  }

  /** `[0, 2, 5]` is a Golomb ruler: each mark lies beyond twice the one
      before it. */
  lemma RulerZeroTwoFive()
    ensures IsGolomb([0, 2, 5])
  {
    var two := [0, 2];
    assert IsGolomb(two) && StrictlyIncreasing(two) by {
      BeyondDoubleIsNew([0], 2);
      ExtendIsGolomb([0], 2);
      assert two == [0] + [2];
    }
    assert IsGolomb(two + [5]) by {
      BeyondDoubleIsNew(two, 5);
      ExtendIsGolomb(two, 5);
    }
    assert [0, 2, 5] == two + [5];
  }
}
