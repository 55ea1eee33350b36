/** The `GolombRuler` entity: a mark sequence stored once at construction,
    with the queries and the conversion to and from the upper-triangular
    distance layout. */
module Ruler {
  import opened Exceptions
  import opened DistanceMath
  import opened Golomb
  import opened Triangular
  import opened Validator

  /** Whether position `idx` of a list of length `len` survives `xs[:stop]`:
      before `stop`, or, when `stop` is negative, before `stop` counted back
      from the end. */
  predicate KeptBySlice(len: nat, stop: int, idx: nat) {
    if stop >= 0 then idx < stop else idx - len < stop
  }

  /** Python's `xs[:stop]` length: the kept positions are exactly the first
      `k` ones. */
  function SliceStop(len: nat, stop: int): (k: nat)
    ensures k <= len
    ensures forall idx: nat :: idx < len ==> (idx < k <==> KeptBySlice(len, stop, idx))
  {
    if stop >= 0 then
      if stop <= len then stop else len
    else
      if len + stop >= 0 then len + stop else 0
  }

  /** The marks `from_distances` builds: mark 0, then the first `order - 1`
      entries of `distances` (as Python slices them). */
  function DecodeMarks(distances: seq<int>, order: int): (marks: seq<int>)
    ensures |marks| == 1 + SliceStop(|distances|, order - 1)
    ensures marks[0] == 0
    ensures forall k :: 1 <= k < |marks| ==> marks[k] == distances[k - 1]
  {
    [0] + distances[..SliceStop(|distances|, order - 1)]
  }

  class GolombRuler {
    const sequence: seq<int>

    /** Storing the sequence; the checked path is Create. */
    constructor (sequence: seq<int>)
      ensures this.sequence == sequence
    {
      this.sequence := sequence;
    }

    /** `GolombRuler(sequence, assert_golomb_property)`: when the flag is set
        and the sequence is not a Golomb ruler, fails with NotGolombRuler
        carrying the sequence; otherwise stores the sequence unchanged. */
    static method Create(sequence: seq<int>, assertGolombProperty: bool)
      returns (r: Result<GolombRuler, NotGolombRuler>)
      ensures r.Err? <==> assertGolombProperty && !IsGolomb(sequence)
      ensures r.Err? ==> r.error == NotGolombRuler(sequence)
      ensures r.Ok? ==> r.value.sequence == sequence
    {
      if assertGolombProperty {
        var ok := IsGolombRuler(sequence);
        if !ok {
          return Err(NotGolombRuler(sequence));
        }
      }
      var ruler := new GolombRuler(sequence);
      return Ok(ruler);
    }

    /** `order`: the number of marks. */
    function Order(): (n: nat)
      ensures n == |sequence|
    {
      |sequence|
    }

    /** `triu_size`: the number of entries of the layout, one per pair of
        marks. */
    function TriuSize(): (size: int)
      ensures size == SumBefore(Order(), Order()) == |Triu(sequence)|
    {
      TriuLength(sequence);
      Order() * (Order() - 1) / 2
    }

    /** `triu_elements_before_row`: for every `rowIndex >= 0` the closed form
        equals `Σ_{k < rowIndex} (n - 1 - k)`, which is the number of entries
        of the rows before `rowIndex` when `rowIndex <= n`. */
    function TriuElementsBeforeRow(rowIndex: int): (count: int)
      ensures rowIndex >= 0 ==> count == SumBefore(Order(), rowIndex)
    {
      var n := Order();
      var i := rowIndex + 1;
      if rowIndex >= 0 then ClosedForm(n, rowIndex); -Half(i * i) + Half(i * (2 * n + 1)) - n
      else -Half(i * i) + Half(i * (2 * n + 1)) - n
    }

    /** `triu_linear_index`: the entry of the layout holding the distance
        between marks `rowIndex` and `rowIndex + colIndex + 1`. */
    function TriuLinearIndex(rowIndex: int, colIndex: int): (index: int)
      ensures rowIndex >= 0 ==> index == SumBefore(Order(), rowIndex) + colIndex
      ensures 0 <= rowIndex && 0 <= colIndex && rowIndex + colIndex + 1 < Order() ==>
        0 <= index < |Triu(sequence)| &&
        Triu(sequence)[index] == Dist(sequence[rowIndex], sequence[rowIndex + colIndex + 1])
    {
      var index := TriuElementsBeforeRow(rowIndex) + colIndex;
      if 0 <= rowIndex && 0 <= colIndex && rowIndex + colIndex + 1 < Order() then
        TriuAt(sequence, rowIndex, rowIndex + colIndex + 1);
        index
      else
        index
    }

    /** `triu_distances`: fills a buffer of `triu_size()` entries pair by pair
        in row-major order; the running index is always the linear index of
        the pair being written. */
    method TriuDistances() returns (distances: seq<int>)
      ensures distances == Triu(sequence)
      ensures |distances| == TriuSize()
    {
      var buffer := new int[TriuSize()](_ => 0);
      var idx := 0;
      for lhsIdx := 0 to |sequence|
        invariant 0 <= idx <= buffer.Length
        invariant buffer[..idx] == RowsBefore(sequence, lhsIdx)
        invariant idx == SumBefore(Order(), lhsIdx)
      {
        RowsBeforeLength(sequence, lhsIdx);
        for rhsIdx := lhsIdx + 1 to |sequence|
          invariant 0 <= idx <= buffer.Length
          invariant idx == TriuLinearIndex(lhsIdx, rhsIdx - lhsIdx - 1)
          invariant buffer[..idx] == RowsBefore(sequence, lhsIdx) + Row(sequence, lhsIdx)[..rhsIdx - lhsIdx - 1]
        {
          PartialRowPrefix(sequence, lhsIdx, rhsIdx - lhsIdx);
          SeenGrows(sequence, lhsIdx, rhsIdx);
          buffer[idx] := Dist(sequence[lhsIdx], sequence[rhsIdx]);
          idx := idx + 1;
        }
        SeenGrows(sequence, lhsIdx, |sequence|);
      }
      distances := buffer[..];
    }

    /** `from_distances`: builds mark 0 followed by the first `order - 1`
        distances and passes it through the checked constructor. */
    static method FromDistances(distances: seq<int>, order: int)
      returns (r: Result<GolombRuler, NotGolombRuler>)
      ensures r.Err? <==> !IsGolomb(DecodeMarks(distances, order))
      ensures r.Err? ==> r.error == NotGolombRuler(DecodeMarks(distances, order))
      ensures r.Ok? ==> r.value.sequence == DecodeMarks(distances, order)
    {
      var marks := [0] + distances[..SliceStop(|distances|, order - 1)];
      r := Create(marks, true);
    }
  }

  /** For a ruler whose first mark is 0, the first `n - 1` entries of its
      layout are its other marks, so decoding them rebuilds it. */
  lemma DecodeTriu(s: seq<int>)
    requires |s| >= 1 && s[0] == 0 && NonNegative(s)
    ensures DecodeMarks(Triu(s), |s|) == s
  {
    var marks := DecodeMarks(Triu(s), |s|);
    forall k | 1 <= k < |s| ensures 0 <= k - 1 < |Triu(s)| && Triu(s)[k - 1] == s[k] {
      TriuAt(s, 0, k);
    }
    if |s| >= 2 {
      TriuAt(s, 0, |s| - 1);
    }
  }

  /** `GolombRuler.from_distances(ruler.triu_distances(), ruler.order())`
      rebuilds a Golomb ruler whose first mark is 0. */
  method CopyViaDistances(ruler: GolombRuler) returns (r: Result<GolombRuler, NotGolombRuler>)
    requires IsGolomb(ruler.sequence) && |ruler.sequence| >= 1 && ruler.sequence[0] == 0
    ensures r.Ok? && r.value.sequence == ruler.sequence
  {
    var distances := ruler.TriuDistances();
    DecodeTriu(ruler.sequence);
    r := GolombRuler.FromDistances(distances, ruler.Order());
  }
}
