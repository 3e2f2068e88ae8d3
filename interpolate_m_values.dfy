/** The accumulation version of the per-feature step (InterpolateMValues.processFeature): for every
    pair of consecutive anchors (a, b) it writes, into the slice [a, b) of a copy of the M-values,
    one rounded value per partial sum of the segment lengths between them. Because the partial sums
    yielded by itertools.accumulate start after the first segment, the value written at slot j is
    the one interpolated for vertex j + 1: the model keeps that one-slot shift, as the code has it. */
module InterpolateMValues {
  import opened LineM

  /** sum(length_segments[a:b]): the distance along the line from vertex a to vertex b. */
  function GapLength(seg: seq<real>, a: nat, b: nat): real
    requires a <= b <= |seg|
  {
    Sum(seg[a..b])
  }

  /** ((dist / total) * (next - first)) + first: the M-value at distance dist from the first
      anchor of a gap of length total. */
  function Interpolate(first: real, next: real, dist: real, total: real): real
    requires total != 0.0
  {
    (dist / total) * (next - first) + first
  }

  /** At the far anchor the partial sum is the whole gap and the blend reaches its value. */
  lemma InterpolateAtEnd(first: real, next: real, total: real)
    requires total != 0.0
    ensures Interpolate(first, next, total, total) == next
  {
    assert total / total == 1.0;
  }

  /** With 0 <= dist <= total the blend stays between the two anchor values. */
  lemma InterpolateBetween(first: real, next: real, dist: real, total: real)
    requires 0.0 <= dist <= total && total != 0.0
    ensures Min(first, next) <= Interpolate(first, next, dist, total) <= Max(first, next)
  {
    FractionInUnit(dist, total);
    BlendBetween(first, next, dist / total);
  }

  lemma RoundedBetween(first: real, next: real, dist: real, total: real)
    requires 0.0 <= dist <= total && total != 0.0
    ensures RoundHalfEven(Min(first, next)) <= RoundHalfEven(Interpolate(first, next, dist, total))
    ensures RoundHalfEven(Interpolate(first, next, dist, total)) <= RoundHalfEven(Max(first, next))
  {
    InterpolateBetween(first, next, dist, total);
    RoundMonotone(Min(first, next), Interpolate(first, next, dist, total));
    RoundMonotone(Interpolate(first, next, dist, total), Max(first, next));
  }

  /** Over a gap of positive length the blend moves from first towards next as dist grows. */
  lemma InterpolateMonotone(first: real, next: real, d1: real, d2: real, total: real)
    requires 0.0 < total && d1 <= d2
    ensures first <= next ==> Interpolate(first, next, d1, total) <= Interpolate(first, next, d2, total)
    ensures next <= first ==> Interpolate(first, next, d2, total) <= Interpolate(first, next, d1, total)
  {
    var t1, t2 := d1 / total, d2 / total;
    assert t2 - t1 == (d2 - d1) / total;
    assert t2 * (next - first) - t1 * (next - first) == (t2 - t1) * (next - first);
    if first <= next {
      ProductNonNegative(t2 - t1, next - first);
    } else {
      ProductNonNegative(t2 - t1, first - next);
      assert (t2 - t1) * (next - first) == -((t2 - t1) * (first - next));
    }
  }

  /** The value the pair (a, b) writes at slot a + k (k < b - a): the M-value interpolated at the
      k-th partial sum of the gap, which reaches vertex a + k + 1, rounded half to even. */
  function SlotValue(ms: seq<real>, seg: seq<real>, a: nat, b: nat, k: nat): real
    requires Shaped(ms, seg) && a < b < |ms| && k < b - a && GapLength(seg, a, b) != 0.0
  {
    RoundHalfEven(Interpolate(ms[a], ms[b], Sum(seg[a..b][..k + 1]), GapLength(seg, a, b))) as real
  }

  /** The slot j of the range [a, b) gets the value at the running distance over segments a..j. */
  lemma SlotValueAt(ms: seq<real>, seg: seq<real>, a: nat, b: nat, j: nat)
    requires Shaped(ms, seg) && a <= j < b < |ms| && GapLength(seg, a, b) != 0.0
    ensures SlotValue(ms, seg, a, b, j - a) ==
      RoundHalfEven(Interpolate(ms[a], ms[b], Sum(seg[a..j + 1]), Sum(seg[a..b]))) as real
  {
    assert seg[a..b][..j - a + 1] == seg[a..j + 1];
  }

  /** interp_m for the pair (a, b): one value per element of accumulate(length_segments[a:b]). */
  function GapValues(ms: seq<real>, seg: seq<real>, a: nat, b: nat): (vs: seq<real>)
    requires Shaped(ms, seg) && a < b < |ms| && GapLength(seg, a, b) != 0.0
    ensures |vs| == b - a
    ensures forall k :: 0 <= k < b - a ==> vs[k] == SlotValue(ms, seg, a, b, k)
  {
    var dists := PartialSums(seg[a..b]);
    var total := GapLength(seg, a, b);
    seq(|dists|, k requires 0 <= k < |dists| => RoundHalfEven(Interpolate(ms[a], ms[b], dists[k], total)) as real)
  }

  /** The array after the pair (A[p], A[p+1]) has written its slice. */
  function WritePair(m: seq<real>, ms: seq<real>, seg: seq<real>, A: seq<nat>, p: nat): (m': seq<real>)
    requires Shaped(ms, seg) && |m| == |ms| && AnchorList(A, |ms|) && p + 1 < |A|
    requires GapLength(seg, A[p], A[p + 1]) != 0.0
    ensures |m'| == |m|
    ensures forall i :: 0 <= i < |m| && !(A[p] <= i < A[p + 1]) ==> m'[i] == m[i]
    ensures forall i :: A[p] <= i < A[p + 1] ==> m'[i] == SlotValue(ms, seg, A[p], A[p + 1], i - A[p])
  {
    m[..A[p]] + GapValues(ms, seg, A[p], A[p + 1]) + m[A[p + 1]..]
  }

  /** The loop over the anchor pairs of A, from pair p on, applied to the array contents m.
      A zero gap raises ZeroDivisionError; the handler's `self.num_bad += 1` then raises
      AttributeError (num_bad is never initialised), so the exception escapes processFeature. */
  function AccumulatePairs(m: seq<real>, ms: seq<real>, seg: seq<real>, A: seq<nat>, p: nat): Outcome
    requires Shaped(ms, seg) && |m| == |ms| && AnchorList(A, |ms|)
    decreases |A| - p
  {
    if p + 1 >= |A| then Feature(m)
    else if GapLength(seg, A[p], A[p + 1]) == 0.0 then Aborted
    else AccumulatePairs(WritePair(m, ms, seg, A, p), ms, seg, A, p + 1)
  }

  /** The new M-values of one feature (m_interpolated), starting from the copy of vertex_m. */
  function Accumulated(ms: seq<real>, seg: seq<real>): Outcome
    requires Shaped(ms, seg)
  {
    AccumulatePairs(ms, ms, seg, Anchors(ms), 0)
  }

  /** The pairs from p on either all go through, or the first zero gap aborts the feature;
      the feature is never dropped quietly. */
  lemma {:induction false} PairsOutcome(m: seq<real>, ms: seq<real>, seg: seq<real>, A: seq<nat>, p: nat)
    requires Shaped(ms, seg) && |m| == |ms| && AnchorList(A, |ms|)
    ensures AccumulatePairs(m, ms, seg, A, p).Feature? <==>
      forall k :: p <= k < |A| - 1 ==> GapLength(seg, A[k], A[k + 1]) != 0.0
    ensures !AccumulatePairs(m, ms, seg, A, p).Dropped?
    ensures AccumulatePairs(m, ms, seg, A, p).Feature? ==> |AccumulatePairs(m, ms, seg, A, p).m| == |m|
    decreases |A| - p
  {
    if p + 1 < |A| && GapLength(seg, A[p], A[p + 1]) != 0.0 {
      PairsOutcome(WritePair(m, ms, seg, A, p), ms, seg, A, p + 1);
    }
  }

  /** Slots outside [A[p], last anchor) are left as they are by the pairs from p on. */
  lemma {:induction false} PairsKeep(m: seq<real>, ms: seq<real>, seg: seq<real>, A: seq<nat>, p: nat, j: nat)
    requires Shaped(ms, seg) && |m| == |ms| && AnchorList(A, |ms|) && p < |A| && j < |m|
    requires AccumulatePairs(m, ms, seg, A, p).Feature?
    requires j < A[p] || A[|A| - 1] <= j
    ensures |AccumulatePairs(m, ms, seg, A, p).m| == |m| && AccumulatePairs(m, ms, seg, A, p).m[j] == m[j]
    decreases |A| - p
  {
    PairsOutcome(m, ms, seg, A, p);
    if p + 1 < |A| {
      PairsKeep(WritePair(m, ms, seg, A, p), ms, seg, A, p + 1, j);
    }
  }

  /** A slot in the range [A[k], A[k+1]) of a pair k >= p ends up with that pair's value. */
  lemma {:induction false} PairsSlot(m: seq<real>, ms: seq<real>, seg: seq<real>, A: seq<nat>, p: nat, k: nat, j: nat)
    requires Shaped(ms, seg) && |m| == |ms| && AnchorList(A, |ms|)
    requires AccumulatePairs(m, ms, seg, A, p).Feature?
    requires p <= k < |A| - 1 && A[k] <= j < A[k + 1]
    ensures |AccumulatePairs(m, ms, seg, A, p).m| == |m| && GapLength(seg, A[k], A[k + 1]) != 0.0 &&
      AccumulatePairs(m, ms, seg, A, p).m[j] == SlotValue(ms, seg, A[k], A[k + 1], j - A[k])
    decreases |A| - p
  {
    if k == p {
      PairsSlotFirst(m, ms, seg, A, p, j);
    } else {
      PairsOutcome(m, ms, seg, A, p);
      PairsSlot(WritePair(m, ms, seg, A, p), ms, seg, A, p + 1, k, j);
    }
  }

  /** The slot j of the first pair p keeps the value that pair writes: later pairs do not reach it. */
  lemma PairsSlotFirst(m: seq<real>, ms: seq<real>, seg: seq<real>, A: seq<nat>, p: nat, j: nat)
    requires Shaped(ms, seg) && |m| == |ms| && AnchorList(A, |ms|)
    requires AccumulatePairs(m, ms, seg, A, p).Feature?
    requires p < |A| - 1 && A[p] <= j < A[p + 1]
    ensures |AccumulatePairs(m, ms, seg, A, p).m| == |m| && GapLength(seg, A[p], A[p + 1]) != 0.0 &&
      AccumulatePairs(m, ms, seg, A, p).m[j] == SlotValue(ms, seg, A[p], A[p + 1], j - A[p])
  {
    PairsOutcome(m, ms, seg, A, p);
    if p + 2 < |A| {
      PairsKeep(WritePair(m, ms, seg, A, p), ms, seg, A, p + 1, j);
    }
  }

  // ---------------------------------------------------------------- properties of the outcome

  /** The input M-values are never resized: the outcome has one value per vertex; the feature
      is never dropped quietly. */
  lemma AccumulatedLength(ms: seq<real>, seg: seq<real>)
    requires Shaped(ms, seg)
    ensures !Accumulated(ms, seg).Dropped?
    ensures Accumulated(ms, seg).Feature? ==> |Accumulated(ms, seg).m| == |ms|
  {
    PairsOutcome(ms, ms, seg, Anchors(ms), 0);
  }

  /** With fewer than two anchors the loop body never runs: the M-values come back unchanged. */
  lemma AccumulatedFewAnchors(ms: seq<real>, seg: seq<real>)
    requires Shaped(ms, seg) && |Anchors(ms)| < 2
    ensures Accumulated(ms, seg) == Feature(ms)
  {
  }

  /** The feature fails precisely when some pair of consecutive anchors has a zero gap. */
  lemma AccumulatedAborted(ms: seq<real>, seg: seq<real>)
    requires Shaped(ms, seg)
    ensures Accumulated(ms, seg) == Aborted <==>
      exists k :: 0 <= k < |Anchors(ms)| - 1 && GapLength(seg, Anchors(ms)[k], Anchors(ms)[k + 1]) == 0.0
  {
    PairsOutcome(ms, ms, seg, Anchors(ms), 0);
  }

  /** Two coincident vertices with M-values 10 and 20: the division by the zero gap fails and
      the handler's update of the never-initialised num_bad lets the exception escape. */
  lemma ZeroGapAborts(ms: seq<real>, seg: seq<real>)
    requires |ms| == 2 && ms[0] == 10.0 && ms[1] == 20.0 && |seg| == 1 && seg[0] == 0.0
    ensures Accumulated(ms, seg) == Aborted
  {
    var A := Anchors(ms);
    assert 0 in A && 1 in A;
    assert A[0] < A[1];
    assert seg[0..1] == [seg[0]];
    assert Sum(seg[0..1]) == 0.0 by {
      assert seg[0..1][..0] == [];
    }
    AccumulatedAborted(ms, seg);
  }

  /** The handler as evidently intended: a feature whose division fails is counted and dropped
      instead of letting the handler's own AttributeError escape. */
  function AccumulatedHandled(ms: seq<real>, seg: seq<real>): Outcome
    requires Shaped(ms, seg)
  {
    if Accumulated(ms, seg).Aborted? then Dropped else Accumulated(ms, seg)
  }

  /** With the handler repaired no feature aborts: exactly the lines with a zero gap between
      consecutive anchors are dropped, and every other line gets the same M-values as before. */
  lemma HandledDropsZeroGaps(ms: seq<real>, seg: seq<real>)
    requires Shaped(ms, seg)
    ensures !AccumulatedHandled(ms, seg).Aborted?
    ensures AccumulatedHandled(ms, seg) == Dropped <==>
      exists k :: 0 <= k < |Anchors(ms)| - 1 && GapLength(seg, Anchors(ms)[k], Anchors(ms)[k + 1]) == 0.0
    ensures AccumulatedHandled(ms, seg).Feature? ==>
      AccumulatedHandled(ms, seg) == Accumulated(ms, seg) && |AccumulatedHandled(ms, seg).m| == |ms|
  {
    AccumulatedAborted(ms, seg);
    AccumulatedLength(ms, seg);
  }

  /** Slots before the first anchor, the last anchor itself and every slot after it are never
      written. */
  lemma AccumulatedUntouched(ms: seq<real>, seg: seq<real>, j: nat)
    requires Shaped(ms, seg) && Accumulated(ms, seg).Feature? && j < |ms|
    requires |Anchors(ms)| > 0 ==> j < Anchors(ms)[0] || Anchors(ms)[|Anchors(ms)| - 1] <= j
    ensures |Accumulated(ms, seg).m| == |ms| && Accumulated(ms, seg).m[j] == ms[j]
  {
    if |Anchors(ms)| > 0 {
      PairsKeep(ms, ms, seg, Anchors(ms), 0, j);
    }
  }

  /** For consecutive anchors a < b and a <= j < b, slot j receives the M-value interpolated at
      the distance from a to vertex j + 1, that is at the partial sum s = sum(seg[a..j]) of the
      gap S: round((s / S) * (vb - va) + va). */
  lemma AccumulatedGap(ms: seq<real>, seg: seq<real>, p: nat, j: nat)
    requires Shaped(ms, seg) && Accumulated(ms, seg).Feature?
    requires p + 1 < |Anchors(ms)| && Anchors(ms)[p] <= j < Anchors(ms)[p + 1]
    ensures var A := Anchors(ms); var a, b := A[p], A[p + 1];
      Sum(seg[a..b]) != 0.0 && |Accumulated(ms, seg).m| == |ms| &&
      Accumulated(ms, seg).m[j] == RoundHalfEven(Interpolate(ms[a], ms[b], Sum(seg[a..j + 1]), Sum(seg[a..b]))) as real
  {
    var A := Anchors(ms);
    var a, b := A[p], A[p + 1];
    PairsSlot(ms, ms, seg, A, 0, p, j);
    SlotValueAt(ms, seg, a, b, j);
  }

  /** The one-slot shift: slot b - 1 receives round(vb) (the partial sum there is the whole gap),
      and an anchor a that is not the last is replaced by the value computed for the vertex
      after it, at distance seg[a]. */
  lemma AccumulatedShift(ms: seq<real>, seg: seq<real>, p: nat)
    requires Shaped(ms, seg) && Accumulated(ms, seg).Feature? && p + 1 < |Anchors(ms)|
    ensures var A := Anchors(ms); var a, b := A[p], A[p + 1];
      Sum(seg[a..b]) != 0.0 && |Accumulated(ms, seg).m| == |ms| &&
      Accumulated(ms, seg).m[b - 1] == RoundHalfEven(ms[b]) as real &&
      Accumulated(ms, seg).m[a] == RoundHalfEven(Interpolate(ms[a], ms[b], seg[a], Sum(seg[a..b]))) as real
  {
    var A := Anchors(ms);
    var a, b := A[p], A[p + 1];
    AccumulatedGap(ms, seg, p, b - 1);
    AccumulatedGap(ms, seg, p, a);
    InterpolateAtEnd(ms[a], ms[b], Sum(seg[a..b]));
    assert seg[a..a + 1] == [seg[a]];
    assert Sum([seg[a]]) == seg[a] by {
      assert [seg[a]][..0] == [];
    }
  }

  /** No overshoot: with non-negative segments every written value lies between the rounded
      anchor values of its pair. */
  lemma AccumulatedBounds(ms: seq<real>, seg: seq<real>, p: nat, j: nat)
    requires Shaped(ms, seg) && NonNegative(seg) && Accumulated(ms, seg).Feature?
    requires p + 1 < |Anchors(ms)| && Anchors(ms)[p] <= j < Anchors(ms)[p + 1]
    ensures var A := Anchors(ms); var a, b := A[p], A[p + 1];
      |Accumulated(ms, seg).m| == |ms| &&
      RoundHalfEven(Min(ms[a], ms[b])) as real <= Accumulated(ms, seg).m[j] <= RoundHalfEven(Max(ms[a], ms[b])) as real
  {
    var A := Anchors(ms);
    var a, b := A[p], A[p + 1];
    AccumulatedGap(ms, seg, p, j);
    SliceSumBounds(seg, a, j + 1, b);
    RoundedBetween(ms[a], ms[b], Sum(seg[a..j + 1]), Sum(seg[a..b]));
  }

  /** Within one pair the written values run from the first anchor value towards the next:
      non-decreasing when it is the larger, non-increasing when it is the smaller. */
  lemma AccumulatedMonotone(ms: seq<real>, seg: seq<real>, p: nat, i: nat, j: nat)
    requires Shaped(ms, seg) && NonNegative(seg) && Accumulated(ms, seg).Feature?
    requires p + 1 < |Anchors(ms)| && Anchors(ms)[p] <= i < j < Anchors(ms)[p + 1]
    ensures var A := Anchors(ms); var a, b := A[p], A[p + 1]; var out := Accumulated(ms, seg).m;
      |out| == |ms| &&
      (ms[a] <= ms[b] ==> out[i] <= out[j]) &&
      (ms[b] <= ms[a] ==> out[j] <= out[i])
  {
    var A := Anchors(ms);
    var a, b := A[p], A[p + 1];
    AccumulatedGap(ms, seg, p, i);
    AccumulatedGap(ms, seg, p, j);
    SliceSumBounds(seg, a, i + 1, j + 1);
    SliceSumBounds(seg, a, b, b);
    var d1, d2, total := Sum(seg[a..i + 1]), Sum(seg[a..j + 1]), Sum(seg[a..b]);
    InterpolateMonotone(ms[a], ms[b], d1, d2, total);
    var v1, v2 := Interpolate(ms[a], ms[b], d1, total), Interpolate(ms[a], ms[b], d2, total);
    if ms[a] <= ms[b] {
      RoundMonotone(v1, v2);
    }
    if ms[b] <= ms[a] {
      RoundMonotone(v2, v1);
    }
  }

  // ---------------------------------------------------------------- the per-feature step

  /** One pass of the loop over anchor pairs: interp_m, computed from the running distance that
      itertools.accumulate yields, assigned to the slice m_interpolated[a:b]. */
  method WriteGap(m: array<real>, ms: seq<real>, seg: seq<real>, A: seq<nat>, p: nat)
    requires Shaped(ms, seg) && m.Length == |ms| && AnchorList(A, |ms|) && p + 1 < |A|
    requires GapLength(seg, A[p], A[p + 1]) != 0.0
    modifies m
    ensures m[..] == WritePair(old(m[..]), ms, seg, A, p)
  {
    var a, b := A[p], A[p + 1];
    var first, next := ms[a], ms[b];
    var sumSeg := Sum(seg[a..b]);
    ghost var vs := GapValues(ms, seg, a, b);
    var dist := 0.0;
    var j := a;
    while j < b
      invariant a <= j <= b
      invariant dist == Sum(seg[a..j])
      invariant forall i :: a <= i < j ==> m[i] == vs[i - a]
      invariant forall i :: 0 <= i < m.Length && !(a <= i < j) ==> m[i] == old(m[i])
    {
      assert seg[a..j + 1][..j - a] == seg[a..j];
      dist := dist + seg[j];
      SlotValueAt(ms, seg, a, b, j);
      m[j] := RoundHalfEven(Interpolate(first, next, dist, sumSeg)) as real;
      j := j + 1;
    }
    ghost var w := WritePair(old(m[..]), ms, seg, A, p);
    assert forall i :: 0 <= i < m.Length ==> m[i] == w[i];
    assert m[..] == w;
  }

  /** processFeature: extract the M-values, copy them (np.copy) and overwrite the slice [a, b)
      of every pair of consecutive anchors with the accumulated, rounded values. */
  method ProcessFeature(line: seq<Vertex>, seg: seq<real>) returns (r: Outcome)
    requires SegmentLengths(line, seg)
    ensures r == Accumulated(MValues(line), seg)
  {
    var ms := ExtractM(line);
    assert ms == MValues(line);
    var A := Anchors(ms);
    var m := new real[|ms|](i requires 0 <= i < |ms| => ms[i]);
    assert m[..] == ms;
    var p := 0;
    while p + 1 < |A|
      invariant p <= |A| && (|A| > 0 ==> p < |A|)
      invariant m.Length == |ms|
      invariant AccumulatePairs(m[..], ms, seg, A, p) == Accumulated(ms, seg)
    {
      if Sum(seg[A[p]..A[p + 1]]) == 0.0 {
        return Aborted;
      }
      WriteGap(m, ms, seg, A, p);
      p := p + 1;
    }
    r := Feature(m[..]);
  }
}
