# Golomb rulers: validator, generators and the triangular distance layout

A Golomb ruler is a list of non-negative integer marks whose pairwise
distances `|a - b|` are all different. This project models the engine of
`ogr/exploration.py`:

- the validator `is_golomb_ruler` and `compute_distances`;
- the naive generator, which appends `2^(k-1) - 1`;
- the greedy ("improved") generator, which appends the first acceptable
  candidate between `prev[-1]` and `2 * prev[-1] + 1`;
- the `GolombRuler` class with its upper-triangular distance layout
  (`triu_size`, `triu_elements_before_row`, `triu_linear_index`,
  `triu_distances`, `from_distances`);
- the helpers `dist`, `half` and `div`.

It also models the earlier standalone draft in the root-level
`exploration.py`. The draft has its own `drop`, validator and class.

Modules:

- `Exceptions` holds the `NotGolombRuler` error and a `Result` type. A
  raised exception becomes an `Err`.
- `DistanceMath` holds `dist`, and `half` and `div` with Python's floor
  division written out.
- `Golomb` holds the reference definition: non-negative marks, and any two
  index pairs `i < j`, `k < l` with equal distance are the same pair. It
  also holds the facts about appending one mark that both generators use.
- `Triangular` holds the row-major layout of the pairs `i < j` as a
  specification (`Triu`). It has its entry count, the position of each
  pair, and the link between "no repeated entry" and the Golomb property.
- `Validator` holds the two nested-loop scans as methods, each proved
  against the reference definition.
- `Generators` holds both generators as recursive methods. The greedy
  generator is proved equal to a specification function (`ImprovedRuler`),
  and the properties are proved about that function.
- `Ruler` holds the `GolombRuler` class. `sequence` is a field set once by
  the constructor. `Create` is the checked constructor path. The layout
  queries are functions, and `triu_distances` fills an `array`.
- `Draft` holds the root-level `exploration.py` as written.

## Model

| member | source | states |
|---|---|---|
| DistanceMath.Dist | ogr/exploration.py:11-12 | the distance is non-negative and is `a - b` or `b - a` |
| DistanceMath.Half | ogr/exploration.py:181-182 | floor halving: `2r <= a < 2r + 2`, also for negative `a` |
| DistanceMath.Div | ogr/exploration.py:184-185 | floor division for either sign of the divisor: `r*b <= a < r*b + b` when `b > 0`, and the mirrored bounds when `b < 0` |
| Golomb.RepeatInPrefix | ogr/exploration.py:31-32 | a distance that repeats one already seen means the full distance list has a repeat, so returning false is justified |
| Golomb.AddNew | ogr/exploration.py:33-34 | adding a distance not yet seen keeps the seen distances repeat-free and grows their set by exactly that distance |
| Golomb.DistanceBound | ogr/exploration.py:74 | every distance of an increasing non-negative ruler lies in `1 .. last mark` |
| Golomb.ExtendIsGolomb | ogr/exploration.py:96-97 | appending a mark beyond the last one whose distances to all marks are new keeps a strictly increasing Golomb ruler |
| Golomb.BeyondDoubleIsNew | ogr/exploration.py:74 | a mark beyond twice the last mark is not a mark and has only distances that are not yet taken |
| Triangular.RowsBeforeLength | ogr/exploration.py:135-152 | the rows before row `r` hold `SumBefore(n, r)` entries |
| Triangular.SumBeforeClosed | ogr/exploration.py:130-133 | twice `Σ_{k<r}(n-1-k)` is `r (2n - 1 - r)` for every `r >= 0`; at `r = n` this gives the layout size |
| Triangular.ClosedForm | ogr/exploration.py:150-152 | `-half(i*i) + half(i*(2n+1)) - n` with `i = r + 1` equals `Σ_{k<r}(n-1-k)` for every `r >= 0`, which is the number of entries in rows `0 .. r-1` when `r <= n` |
| Triangular.SumBeforeMonotone | ogr/exploration.py:135-152 | for rows up to `n`, a later row starts at no earlier position |
| Triangular.TriuAt | ogr/exploration.py:154-168 | the pair `(i, j)` sits inside the layout at `SumBefore(n, i) + (j - i - 1)`, and that entry is its distance |
| Triangular.TriuPairOf | ogr/exploration.py:158-168 | every layout entry is the distance of a pair `i < j` at exactly the position TriuAt gives |
| Triangular.PositionsOrdered | ogr/exploration.py:154-156 | pairs in row-major order get strictly increasing linear positions, so different pairs never share one |
| Triangular.TriuLength | ogr/exploration.py:130-133 | the layout holds `n (n - 1) / 2` entries |
| Triangular.TriuDistinctIff | ogr/exploration.py:24-36 | the layout has no repeated entry exactly when the ruler has distinct pair distances (both directions) |
| Triangular.TriuElems | ogr/exploration.py:38-46 | the entries of the layout are exactly the ruler's distance set |
| Validator.IsGolombRuler | ogr/exploration.py:14-36 | true exactly when every mark is non-negative and all pair distances are different; so false on any negative mark, and true on the empty list and on any one-mark list whose mark is non-negative |
| Validator.ComputeDistances | ogr/exploration.py:38-46 | the result is exactly `{ \|s[i] - s[j]\| : i < j }`, with no validation |
| Generators.Pow2 | ogr/exploration.py:54 | `2^k` is at least 1 |
| Generators.GenerateNaive | ogr/exploration.py:48-57 | for `order >= 1`: `order` marks, mark `k` is `2^k - 1`, strictly increasing, and a Golomb ruler |
| Generators.UpperBoundAccepted | ogr/exploration.py:74 | the candidate `2 * prev[-1] + 1` is always accepted, so the scan always finds a mark |
| Generators.FirstFitFrom | ogr/exploration.py:89-98 | scanning upwards from any point of the window with nothing accepted below it reaches a first accepted candidate |
| Generators.FirstFitUnique | ogr/exploration.py:89-98 | the first accepted candidate of the window is unique |
| Generators.FirstFit | ogr/exploration.py:89-98 | the appended mark lies in `[prev[-1], 2*prev[-1] + 1]`, is accepted, and no smaller candidate of the window is |
| Generators.ImprovedRuler | ogr/exploration.py:59-98 | the greedy ruler of each order `>= 1` has `order` marks, starts at 0, is strictly increasing and is a Golomb ruler |
| Generators.OrderTwoRuler | ogr/exploration.py:66 | `[0, 1]` is a strictly increasing Golomb ruler |
| Generators.OrderThreeRuler | ogr/exploration.py:67 | `[0, 1, 3]` is a strictly increasing Golomb ruler |
| Generators.ShouldAcceptCandidate | ogr/exploration.py:76-87 | true exactly when no distance from the candidate to a mark of `prev` is already a distance |
| Generators.ScanCandidates | ogr/exploration.py:89-100 | skipping candidates that are already marks, returns the first candidate of `prev[-1] ..= 2 * prev[-1] + 1` whose distances to the marks are all new; one always exists, so the loop never falls through to the raise at line 100 |
| Generators.GenerateImproved | ogr/exploration.py:59-100 | returns exactly the greedy ruler `ImprovedRuler(order)`: the hand-picked rulers up to order 3, and above that the previous order's ruler followed by the scan's first fit |
| Generators.ImprovedStep | ogr/exploration.py:96-98 | the accepted candidate the scan finds is the mark the greedy ruler appends |
| Generators.ImprovedRulerShape | ogr/exploration.py:65-98 | orders 1 to 3 give `[0]`, `[0, 1]`, `[0, 1, 3]`; above that the ruler is the previous order's ruler followed by its first fit |
| Generators.ImprovedWithinNaive | ogr/exploration.py:48-98 | the greedy ruler's last mark is never beyond the naive one's `2^(order-1) - 1` |
| Ruler.SliceStop | ogr/exploration.py:178 | Python's `xs[:stop]` length: at most the list length, and a position is among the first `k` exactly when the slice keeps it (before `stop`, or before `stop` counted from the end when `stop` is negative) |
| Ruler.DecodeMarks | ogr/exploration.py:176-178 | mark 0 followed by the first `order - 1` distances, as Python slices them |
| Ruler.GolombRuler.constructor | ogr/exploration.py:115 | stores the sequence |
| Ruler.GolombRuler.Create | ogr/exploration.py:106-115 | fails with `NotGolombRuler(sequence)` exactly when the flag is set and the sequence is not a Golomb ruler; otherwise stores it unchanged |
| Ruler.GolombRuler.Order | ogr/exploration.py:117-119 | the number of marks |
| Ruler.GolombRuler.TriuSize | ogr/exploration.py:130-133 | `n (n - 1) / 2`, which is the number of layout entries |
| Ruler.GolombRuler.TriuElementsBeforeRow | ogr/exploration.py:135-152 | for every row index `r >= 0`, the closed form equals `Σ_{k<r}(n-1-k)` (`0, 2, 3` for `n = 3`), which is the number of entries in the earlier rows when `r <= n` |
| Ruler.GolombRuler.TriuLinearIndex | ogr/exploration.py:154-156 | for `i < j`, the linear index of `(i, j - i - 1)` lies inside the layout and holds `\|s[i] - s[j]\|` |
| Ruler.GolombRuler.TriuDistances | ogr/exploration.py:158-168 | the filled buffer is exactly the row-major layout of all pair distances and has `triu_size()` entries; the running index always equals `triu_linear_index` of the pair being written |
| Ruler.GolombRuler.FromDistances | ogr/exploration.py:170-179 | builds mark 0 plus the first `order - 1` distances and validates it: fails exactly when that is not a Golomb ruler |
| Ruler.DecodeTriu | ogr/exploration.py:170-179 | for a ruler with first mark 0, decoding its layout with its own order gives back its marks |
| Ruler.CopyViaDistances | ogr/exploration.py:196 | `from_distances(ruler.triu_distances(), ruler.order())` succeeds and reproduces a Golomb ruler whose first mark is 0 |
| Draft.Drop | exploration.py:8-10 | the result is no longer than the input |
| Draft.DropIgnoresIndex | exploration.py:8-10 | `drop` gives the same result whatever index it is passed |
| Draft.DropKeeps | exploration.py:10 | `drop` keeps, in order, exactly the elements that differ from their own position |
| Draft.IsGolombRuler | exploration.py:12-34 | true exactly when every mark is non-negative and the differences against `drop(...)` never repeat; so false on a negative mark and true on the empty list |
| Draft.DraftRepeatRejects | exploration.py:29-30 | a difference already seen part way through the draft's scan is a repeat in all the differences the draft computes, so returning false agrees with `DraftAccepts` |
| Draft.GolombRuler.constructor | exploration.py:51 | stores the sequence |
| Draft.GolombRuler.Create | exploration.py:42-51 | fails with the draft's `NotGolombRuler` exactly when the draft validator rejects; otherwise stores the sequence, and its order is its length |
| Draft.GolombRuler.Order | exploration.py:53-55 | the number of marks |
| Draft.DraftAcceptsNonRuler | exploration.py:8-34 | the draft accepts `[0, 1, 2]`, which is not a Golomb ruler |
| Draft.DraftRejectsRuler | exploration.py:8-34 | the draft rejects `[0, 2, 5]`, which is a Golomb ruler |

## Left out

- `ogr/models.py`, `run.py`, `ogr/exceptions.py` and `ogr/__init__.py` are not part of this model. They hold the external solver, its I/O, plotting, and re-exports. `NotGolombRuler` becomes the `Err` case of a `Result`.
- `d_plus_e` (ogr/exploration.py:123-124) has no body and returns nothing, so it is not modelled.
- The `__main__` block (ogr/exploration.py:188-197): the printing is not modelled. The block builds two rulers through the checked constructor, `[0, 1, 3]` at line 189 and `generate_golomb_ruler_improved(5)` at line 193, prints their layouts (lines 191 and 194) and prints a copy (lines 196-197). These calls are modelled by `Ruler.GolombRuler.Create`, `Generators.GenerateImproved` and `Ruler.GolombRuler.TriuDistances`, and the copy at line 196 by `Ruler.CopyViaDistances`.
- Generators.GenerateNaive and Generators.GenerateImproved: both require `order >= 1`. Lines 50 and 64 build a `ValueError` without raising it, so a smaller order keeps recursing in the source until Python raises `RecursionError` at its recursion limit.
- Generators.GenerateImproved: the final `sorted(prev)` is not modelled as a sort. The appended mark is above the last mark, so `prev + [c]` is already sorted, and the model returns it.
- Generators.GenerateImproved: the in-place `append` on the list returned by the recursive call is modelled as building a new sequence. No other code holds that list, so no aliasing is lost.
- Generators.GenerateNaive, Ruler.GolombRuler.Create and Draft.GolombRuler.Create: the naive generator's in-place `prev.append(next)` (ogr/exploration.py:55) becomes a new sequence, and the class stores a value where the source keeps a reference to the caller's list (ogr/exploration.py:115, exploration.py:51). No code changes a list after handing it over, so aliasing is not modelled.
- Generators.ShouldAcceptCandidate: the source loops over `range(order - 1)` and the model loops over `prev`. At the only call site `prev` has exactly `order - 1` marks.
- Generators.ImprovedWithinNaive: states `<=`, not `<`. At order 4 both generators give `[0, 1, 3, 7]`, so the last marks can be equal.
- Ruler.GolombRuler.TriuElementsBeforeRow: its contract covers row indices `>= 0` only. The closed form is defined for negative indices too, but the layout has no such rows.
- Ruler.GolombRuler.FromDistances: `from_distances` runs its result through the default constructor, which validates, so it can fail with `NotGolombRuler`. `distances[:order - 1]` clamps as Python slicing does, so no bounds error is modelled.
- Ruler.CopyViaDistances: requires a Golomb ruler whose first mark is 0. `from_distances` assumes mark 0, and a ruler starting elsewhere is not reproduced.
- DistanceMath.Div: requires a non-zero divisor. Python raises `ZeroDivisionError` there, and nothing in the source calls `div`.
- Python's unbounded integers match Dafny's `int`, so no overflow is modelled.

## Findings

| source | as written | input that shows it | evidently intended | confidence | as-written member | corrected member |
|---|---|---|---|---|---|---|
| exploration.py:8-10, 24-32 | `drop(input, index_to_drop)` ignores the index and drops the elements equal to their position. The draft validator therefore compares each mark with that filtered list, not with the other marks. | `[0, 1, 2]` is accepted although distance 1 occurs twice. `[0, 2, 5]` is rejected although it is a Golomb ruler. | compare each mark only with the marks after it, as the later validator in ogr/exploration.py:26-36 does | not executed | Draft.IsGolombRuler (exhibited by Draft.DraftAcceptsNonRuler and Draft.DraftRejectsRuler) | Validator.IsGolombRuler |
