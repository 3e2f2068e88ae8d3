# M-value interpolation along LineStringM features

The swiss_knife QGIS processing collection has two algorithms that fill in missing measures (M-values)
along a line. A vertex whose M-value is 0 counts as unknown. A vertex with a non-zero M-value is an
*anchor*. Each algorithm's `processFeature` rebuilds the line with new M-values:

- **InterpolateMValues** (`interpolateMvalues_Line.py`) takes every pair of consecutive anchors
  `a < b`. It accumulates the segment lengths of `[a, b)`, scales each running total by the gap
  total, blends between the two anchor values, rounds, and assigns the result to the slice `[a, b)`.
- **InterpolateMValuesNumpy** (`interpolateMvalues_Line_numpy.py`) computes the cumulative distance
  of every vertex. It looks up each non-anchor vertex with `np.interp` against the anchors'
  (distance, value) table, rounds, and scatters the results into the non-anchor slots.

The model has four modules:

- `line_m.dfy` (**LineM**): the shared vocabulary.
  - Vertices and the outcome of one feature: `Feature(m)`, `Dropped` (the handler returned `[]`) or
    `Aborted` (an exception escaped `processFeature`).
  - The vertex loop (`ExtractM`).
  - Python's `sum` and `itertools.accumulate` / `np.cumsum` (`Sum`, `PartialSumsFrom`).
  - `np.nonzero` (`Anchors`).
  - `round(x, 0)` and `np.around`, which both round half to even (`RoundHalfEven`).
- `interpolate_m_values.dfy` (**InterpolateMValues**): the accumulation version.
  - A specification on values (`Accumulated`, a fold over the anchor pairs).
  - The imperative `ProcessFeature`, which works on an array copy of the M-values and is proved equal
    to that specification.
  - The properties of the outcome.
- `interpolate_m_values_numpy.dfy` (**InterpolateMValuesNumpy**): the table-lookup version.
  - `np.insert` / `np.cumsum` / fancy indexing / `np.delete` / `np.interp` / `np.around` as functions.
  - The specification `TableLookup`.
  - The imperative `ProcessFeature` with the fancy-index write as an array loop.
  - The properties of the outcome.
- `agreement.dfy` (**Agreement**): how the two versions relate.
  - Between two consecutive anchors `a < b` they differ by a one-slot shift: for `a <= j < b - 1`,
    slot `j` of the accumulation result holds slot `j + 1` of the table result.
  - An accumulation that keeps the anchors (`m_interpolated[a+1:b] = interp_m[:-1]`) agrees with the
    table lookup everywhere from the first anchor to the last.

Floats are modelled as exact reals. The segment lengths `sqrt(sqrDist(...))` enter as a parameter
`seg`, constrained by `SegmentLengths`: one non-negative length per consecutive pair, whose square is
the squared distance.

Take `[10, 0, 0, 0, 20]` on vertices one unit apart. Rounding half up and keeping the anchors would
give `[10, 13, 15, 18, 20]`. Both Python's `round` and `np.around` round half to even, so the
table-lookup version gives `[10, 12, 15, 18, 20]` (`Agreement.TableExample`). The accumulation
version gives `[12, 15, 18, 20, 20]` (`Agreement.ShiftExample`).

The two versions also differ outside the anchors:

- With fewer than two anchors the accumulation version leaves everything untouched. The table
  lookup drops a line without anchors and gives every other vertex a single anchor's rounded value.
- Before the first anchor and after the last, the accumulation version keeps the zeros, while
  `np.interp` clamps to the nearest anchor value, which is then rounded.
- A zero-length gap between two anchors makes the accumulation version abort. The table-lookup
  version has no Python-level division that raises. `np.interp` divides by the difference of two
  sample points without raising; what it returns for coincident anchors is not modelled.

## Model

| member | source | states |
|---|---|---|
| LineM.ExtractM | collections/swiss_knife/processing/interpolateMvalues_Line.py:125-130 | the collected list has one entry per vertex, in vertex order, holding that vertex's M-value |
| LineM.PartialSumsFrom | collections/swiss_knife/processing/interpolateMvalues_Line.py:147 | the k-th running total equals the start value plus the sum of the first k+1 elements, one total per element |
| LineM.Anchors | collections/swiss_knife/processing/interpolateMvalues_Line.py:139 | the anchor list is ascending, holds only in-range indices, and holds exactly the indices of non-zero M-values |
| LineM.RoundHalfEven | collections/swiss_knife/processing/interpolateMvalues_Line.py:149 | the result is an integer within 0.5 of the argument, and an exact tie goes to the even neighbour |
| LineM.RoundMonotone | collections/swiss_knife/processing/interpolateMvalues_Line_numpy.py:154 | rounding half to even never reverses the order of two values |
| LineM.PairCover | collections/swiss_knife/processing/interpolateMvalues_Line.py:144-150 | every index from the first anchor up to (not including) the last lies in the write range [A[k], A[k+1]) of some pair |
| LineM.PairsDisjoint | collections/swiss_knife/processing/interpolateMvalues_Line.py:144-150 | an index lies in the write range of at most one pair, so later pairs never overwrite earlier ones |
| InterpolateMValues.GapValues | collections/swiss_knife/processing/interpolateMvalues_Line.py:147-149 | interp_m for a pair has b - a entries; entry k is the rounded blend of the two anchor values at the running distance over segments a..a+k |
| InterpolateMValues.WritePair | collections/swiss_knife/processing/interpolateMvalues_Line.py:150 | the slice assignment keeps the length, changes nothing outside [a, b), and puts the pair's k-th value at a + k |
| InterpolateMValues.PairsOutcome | collections/swiss_knife/processing/interpolateMvalues_Line.py:144-150 | the loop from pair p on yields the feature exactly when none of the remaining gaps is zero, never drops it, and keeps the length |
| InterpolateMValues.PairsKeep | collections/swiss_knife/processing/interpolateMvalues_Line.py:144-150 | slots before the current pair's start and from the last anchor on come out of the loop unchanged |
| InterpolateMValues.PairsSlot | collections/swiss_knife/processing/interpolateMvalues_Line.py:144-150 | a slot in the range of pair k ends the loop with that pair's value, whatever later pairs do |
| InterpolateMValues.PairsSlotFirst | collections/swiss_knife/processing/interpolateMvalues_Line.py:144-150 | a slot in the range of the current pair keeps the value that pair writes until the loop ends |
| InterpolateMValues.AccumulatedLength | collections/swiss_knife/processing/interpolateMvalues_Line.py:141-150 | the feature is never dropped quietly, and a yielded feature has one M-value per vertex |
| InterpolateMValues.AccumulatedFewAnchors | collections/swiss_knife/processing/interpolateMvalues_Line.py:144 | with fewer than two anchors the M-values come back unchanged |
| InterpolateMValues.AccumulatedAborted | collections/swiss_knife/processing/interpolateMvalues_Line.py:148-167 | the feature aborts if and only if some pair of consecutive anchors has a zero total gap length |
| InterpolateMValues.ZeroGapAborts | collections/swiss_knife/processing/interpolateMvalues_Line.py:164-168 | two coincident vertices with M-values 10 and 20 make processFeature abort |
| InterpolateMValues.HandledDropsZeroGaps | collections/swiss_knife/processing/interpolateMvalues_Line.py:164-168 | with the handler repaired nothing aborts; exactly the lines with a zero gap are dropped, and all others get the unrepaired M-values |
| InterpolateMValues.AccumulatedUntouched | collections/swiss_knife/processing/interpolateMvalues_Line.py:141-150 | before the first anchor, at the last anchor and after it the output equals the input M-value |
| InterpolateMValues.AccumulatedGap | collections/swiss_knife/processing/interpolateMvalues_Line.py:145-150 | a slot j in [a, b) receives round(first + (sum of segments a..j) / (gap total) * (next - first)) |
| InterpolateMValues.AccumulatedShift | collections/swiss_knife/processing/interpolateMvalues_Line.py:147-150 | slot b - 1 receives round(next anchor value), and the anchor a itself is overwritten with the value at distance seg[a] |
| InterpolateMValues.AccumulatedBounds | collections/swiss_knife/processing/interpolateMvalues_Line.py:149 | with non-negative segments every written slot lies between the rounded smaller and the rounded larger of its two anchor values |
| InterpolateMValues.InterpolateMonotone | collections/swiss_knife/processing/interpolateMvalues_Line.py:149 | over a gap of positive length the blend moves monotonically from the first anchor value towards the next as the distance grows |
| InterpolateMValues.AccumulatedMonotone | collections/swiss_knife/processing/interpolateMvalues_Line.py:147-150 | within one pair the written values never decrease when the next anchor value is the larger, and never increase when it is the smaller |
| InterpolateMValues.WriteGap | collections/swiss_knife/processing/interpolateMvalues_Line.py:147-150 | the array loop over one pair leaves the array equal to the slice assignment of the pair's values |
| InterpolateMValues.ProcessFeature | collections/swiss_knife/processing/interpolateMvalues_Line.py:121-168 | the imperative per-feature step returns exactly the outcome of the accumulation specification |
| InterpolateMValuesNumpy.CumulativeDistances | collections/swiss_knife/processing/interpolateMvalues_Line_numpy.py:143-144 | one distance per vertex; the first is 0, and distance i is the sum of the first i segment lengths |
| InterpolateMValuesNumpy.DistancesNondecreasing | collections/swiss_knife/processing/interpolateMvalues_Line_numpy.py:143-144 | the distance difference D[j] - D[i] is the sum of segments i..j-1, so with non-negative lengths distances never decrease |
| InterpolateMValuesNumpy.ComplementFrom | collections/swiss_knife/processing/interpolateMvalues_Line_numpy.py:158 | np.delete on range(n) yields, ascending, exactly the indices from i up to n that are not deleted |
| InterpolateMValuesNumpy.Delete | collections/swiss_knife/processing/interpolateMvalues_Line_numpy.py:152 | np.delete keeps the elements at the non-deleted positions, in order |
| InterpolateMValuesNumpy.InterpLeft | collections/swiss_knife/processing/interpolateMvalues_Line_numpy.py:153 | at or left of the first sample point np.interp returns the first value |
| InterpolateMValuesNumpy.InterpRight | collections/swiss_knife/processing/interpolateMvalues_Line_numpy.py:153 | at or right of the last sample point np.interp returns the last value |
| InterpolateMValuesNumpy.InterpSegment | collections/swiss_knife/processing/interpolateMvalues_Line_numpy.py:153 | between samples k and k+1 np.interp is the straight line through those two samples |
| InterpolateMValuesNumpy.LerpMonotone | collections/swiss_knife/processing/interpolateMvalues_Line_numpy.py:153 | the straight line through two samples rises with x when the second value is the larger and falls when it is the smaller |
| InterpolateMValuesNumpy.LerpBetween | collections/swiss_knife/processing/interpolateMvalues_Line_numpy.py:153 | between its two samples the straight line stays between their values |
| InterpolateMValuesNumpy.ScatterOutside | collections/swiss_knife/processing/interpolateMvalues_Line_numpy.py:159 | the fancy-index assignment leaves positions that are not listed unchanged |
| InterpolateMValuesNumpy.ScatterAt | collections/swiss_knife/processing/interpolateMvalues_Line_numpy.py:159 | with ascending positions, the k-th listed position receives the k-th value |
| InterpolateMValuesNumpy.TableDropped | collections/swiss_knife/processing/interpolateMvalues_Line_numpy.py:153-178 | the feature is dropped exactly when it has no anchor, and otherwise yielded; it never aborts |
| InterpolateMValuesNumpy.NonAnchorIndices | collections/swiss_knife/processing/interpolateMvalues_Line_numpy.py:152-158 | zero_value_indexes is ascending and holds exactly the vertices whose M-value is 0, and entry k of zero_vertices is the distance of its k-th vertex |
| InterpolateMValuesNumpy.TableAnchorsKept | collections/swiss_knife/processing/interpolateMvalues_Line_numpy.py:157-159 | the result has one value per vertex, and every anchor keeps its M-value exactly |
| InterpolateMValuesNumpy.TableNonAnchor | collections/swiss_knife/processing/interpolateMvalues_Line_numpy.py:152-159 | every non-anchor vertex receives the rounded np.interp value at its own cumulative distance |
| InterpolateMValuesNumpy.TableBetween | collections/swiss_knife/processing/interpolateMvalues_Line_numpy.py:143-154 | a non-anchor vertex j between anchors a < b receives round(va + (vb - va) / (D[b] - D[a]) * (D[j] - D[a])) |
| InterpolateMValuesNumpy.TableEvenSegments | collections/swiss_knife/processing/interpolateMvalues_Line_numpy.py:143-159 | where every segment between consecutive anchors a < b has the same length, a vertex a < j < b receives round((j - a) / (b - a) * (vb - va) + va): interpolation by vertex index |
| InterpolateMValuesNumpy.EvenLerp | collections/swiss_knife/processing/interpolateMvalues_Line_numpy.py:143-153 | over segments of one length, the straight line through the two anchor distances, read at vertex j's distance, equals the line by vertex index |
| InterpolateMValuesNumpy.LerpEvenSteps | collections/swiss_knife/processing/interpolateMvalues_Line_numpy.py:153 | when the sample gaps are n and m equal steps, interpolation is by the fraction n / m |
| InterpolateMValuesNumpy.TableBounds | collections/swiss_knife/processing/interpolateMvalues_Line_numpy.py:143-159 | a vertex strictly between consecutive anchors never overshoots them: its value lies between the rounded smaller and the rounded larger anchor value |
| InterpolateMValuesNumpy.TableMonotone | collections/swiss_knife/processing/interpolateMvalues_Line_numpy.py:143-159 | strictly between consecutive anchors the values never decrease when the later anchor value is the larger, and never increase when it is the smaller |
| InterpolateMValuesNumpy.TableBeforeFirst | collections/swiss_knife/processing/interpolateMvalues_Line_numpy.py:153-154 | every vertex before the first anchor receives the rounded first anchor value |
| InterpolateMValuesNumpy.TableAfterLast | collections/swiss_knife/processing/interpolateMvalues_Line_numpy.py:153-154 | every vertex after the last anchor receives the rounded last anchor value |
| InterpolateMValuesNumpy.InterpAfterLast | collections/swiss_knife/processing/interpolateMvalues_Line_numpy.py:153 | np.interp at the distance of a vertex at or after the last anchor returns the last anchor value |
| InterpolateMValuesNumpy.TableSingleAnchor | collections/swiss_knife/processing/interpolateMvalues_Line_numpy.py:153-154 | with a single anchor every other vertex receives its rounded value |
| InterpolateMValuesNumpy.TableAllAnchored | collections/swiss_knife/processing/interpolateMvalues_Line_numpy.py:152-159 | if every vertex is an anchor the M-values come back unchanged |
| InterpolateMValuesNumpy.FancyWrite | collections/swiss_knife/processing/interpolateMvalues_Line_numpy.py:159 | the array loop leaves the array equal to the fancy-index assignment of the values |
| InterpolateMValuesNumpy.ProcessFeature | collections/swiss_knife/processing/interpolateMvalues_Line_numpy.py:121-178 | the imperative per-feature step returns exactly the outcome of the table-lookup specification |
| Agreement.AccumulationSucceeds | collections/swiss_knife/processing/interpolateMvalues_Line.py:148-149 | when the anchor distances increase strictly no gap is zero, so the accumulation version yields the feature with one value per vertex |
| Agreement.ShiftedAgreement | collections/swiss_knife/processing/interpolateMvalues_Line.py:147-150 | for a <= j < b - 1, slot j of the accumulation result equals slot j + 1 of the table-lookup result |
| Agreement.ShiftExample | collections/swiss_knife/processing/interpolateMvalues_Line.py:147-150 | on [10, 0, 0, 0, 20] with unit segments the accumulation version yields [12, 15, 18, 20, 20] |
| Agreement.TableExample | collections/swiss_knife/processing/interpolateMvalues_Line_numpy.py:143-159 | on the same line the table-lookup version yields [10, 12, 15, 18, 20] |
| Agreement.WritePairKeepingAnchors | collections/swiss_knife/processing/interpolateMvalues_Line.py:150 | the corrected slice assignment changes nothing outside the open range (a, b), and puts at j the value interpolated at vertex j |
| Agreement.CorrectedOutcome | collections/swiss_knife/processing/interpolateMvalues_Line.py:144-150 | the corrected loop yields the feature exactly when no remaining gap is zero, and keeps the length |
| Agreement.CorrectedKeep | collections/swiss_knife/processing/interpolateMvalues_Line.py:144-150 | the corrected loop never changes an anchor, a slot before the current pair, or a slot from the last anchor on |
| Agreement.CorrectedSlot | collections/swiss_knife/processing/interpolateMvalues_Line.py:144-150 | a slot i + 1 strictly inside pair k ends the corrected loop with that pair's value for its own vertex (the value the as-written slice puts at i) |
| Agreement.CorrectedSlotFirst | collections/swiss_knife/processing/interpolateMvalues_Line.py:144-150 | a slot strictly inside the current pair keeps the corrected value that pair writes until the loop ends |
| Agreement.CorrectedSucceeds | collections/swiss_knife/processing/interpolateMvalues_Line.py:148-150 | the corrected accumulation fails exactly when the as-written one does |
| Agreement.CorrectedIsShifted | collections/swiss_knife/processing/interpolateMvalues_Line.py:150 | strictly inside a pair, corrected slot i + 1 equals as-written slot i |
| Agreement.CorrectedAnchorKept | collections/swiss_knife/processing/interpolateMvalues_Line.py:150 | the corrected accumulation and the table lookup both leave every anchor's M-value as it was |
| Agreement.CorrectedBetween | collections/swiss_knife/processing/interpolateMvalues_Line.py:147-150 | for a <= i and i + 1 < b, the corrected accumulation and the table lookup write the same value at slot i + 1 |
| Agreement.CorrectedInside | collections/swiss_knife/processing/interpolateMvalues_Line.py:147-150 | strictly between consecutive anchors the corrected accumulation and the table lookup write the same value |
| Agreement.CorrectedMatchesTable | collections/swiss_knife/processing/interpolateMvalues_Line.py:141-150 | from the first anchor to the last, the corrected accumulation agrees with the table lookup at every slot |
| Agreement.CorrectedBounds | collections/swiss_knife/processing/interpolateMvalues_Line.py:147-150 | strictly between consecutive anchors the corrected accumulation lies between the rounded smaller and the rounded larger anchor value |
| Agreement.CorrectedMonotone | collections/swiss_knife/processing/interpolateMvalues_Line.py:147-150 | strictly between consecutive anchors the corrected values never decrease when the later anchor value is the larger, and never increase when it is the smaller |
| Agreement.CorrectedMonotoneShifted | collections/swiss_knife/processing/interpolateMvalues_Line.py:147-150 | the same order for the corrected slots i0 + 1 and j0 + 1, from the as-written slots i0 and j0 |

## Left out

- The QGIS glue is not modelled. This covers parameter definitions, the feature source and sink, `QgsVertexIterator`
  (the line is a sequence of vertices), the geometry copy, the `setMAt` loop, the attribute copy and
  building the new feature. The outcome carries the new M-value sequence in place of the feature.
- Floating point is not modelled. Floats are exact reals, so IEEE rounding of the divisions and sums
  and NaN M-values are not captured.
- The square root is not modelled. The segment lengths are a parameter constrained by their squares
  (`SegmentLengths`).
- Logging is not modelled: `traceback.format_exc` and `feedback.pushInfo`.
- InterpolateMValues.ProcessFeature: an escaping exception is `Aborted`, without saying which
  exception (ZeroDivisionError raised into the handler, then AttributeError on `num_bad`).
- InterpolateMValuesNumpy.ProcessFeature requires strictly increasing anchor distances.
  `np.interp` does not check this, and its result for sample points that do not increase (for
  example two anchors at coincident vertices) is not modelled.
- InterpolateMValuesNumpy.TableLookup is the specification of that method and carries the same
  precondition.
- The other algorithms of the collection are not part of this model.

## Findings

| source | as written | input that shows it | evidently intended | confidence | as-written member | corrected member |
|---|---|---|---|---|---|---|
| collections/swiss_knife/processing/interpolateMvalues_Line.py:150 | `m_interpolated[a:b] = interp_m` stores the value computed for vertex j + 1 at vertex j: each anchor but the last is overwritten, and the vertex before the next anchor gets that anchor's value rounded half to even | M-values [10, 0, 0, 0, 20] on vertices one unit apart give [12, 15, 18, 20, 20] | anchors kept and each vertex interpolated at its own distance, [10, 12, 15, 18, 20], as the numpy version computes | not executed; high | Agreement.ShiftExample | Agreement.CorrectedMatchesTable |
| collections/swiss_knife/processing/interpolateMvalues_Line.py:167 | the handler increments `self.num_bad`, which nothing initialises, so an AttributeError escapes instead of the feature being dropped | two coincident vertices with M-values 10 and 20 (a zero-length gap) | count the feature and return `[]` | not executed; medium (no base class in the repository defines `num_bad`) | InterpolateMValues.ZeroGapAborts | InterpolateMValues.HandledDropsZeroGaps |
