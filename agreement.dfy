/** How the two versions of the per-feature step relate. They do not agree: for consecutive
    anchors a < b and a <= j < b - 1, the accumulation version writes at slot j the value the
    table-lookup version writes at slot j + 1. An accumulation that assigns
    m_interpolated[a+1:b] = interp_m[:-1] instead keeps the anchors and agrees with the table
    lookup everywhere from the first anchor to the last. */
module Agreement {
  import opened LineM
  import opened InterpolateMValues
  import opened InterpolateMValuesNumpy

  /** Where np.interp is meaningful (increasing anchor distances) no pair of consecutive anchors
      has a zero gap, so the accumulation version yields the feature. */
  lemma AccumulationSucceeds(ms: seq<real>, seg: seq<real>)
    requires Shaped(ms, seg) && SamplePointsIncreasing(ms, seg)
    ensures Accumulated(ms, seg).Feature? && |Accumulated(ms, seg).m| == |ms|
  {
    var A, D := Anchors(ms), CumulativeDistances(seg);
    forall k | 0 <= k < |A| - 1
      ensures GapLength(seg, A[k], A[k + 1]) != 0.0
    {
      SumSlice(seg, A[k], A[k + 1]);
      SamplePointsAt(ms, seg, k, k + 1);
    }
    AccumulatedAborted(ms, seg);
    AccumulatedLength(ms, seg);
  }

  /** The accumulation formula (s / S) * (vb - va) + va and np.interp's slope form meet when
      s and S are the distances of x and x1 from x0. */
  lemma InterpolateIsLerp(va: real, vb: real, x0: real, x1: real, x: real, s: real, total: real)
    requires total != 0.0 && x1 - x0 == total && x - x0 == s
    ensures Interpolate(va, vb, s, total) == Lerp(x0, x1, va, vb, x)
  {
    assert (s / total) * (vb - va) == (vb - va) / total * s;
  }

  /** The one-slot shift between the versions: for consecutive anchors a < b and a <= j < b - 1,
      the accumulation version's slot j holds the table-lookup version's slot j + 1. */
  lemma ShiftedAgreement(ms: seq<real>, seg: seq<real>, p: nat, j: nat)
    requires Shaped(ms, seg) && NonNegative(seg) && SamplePointsIncreasing(ms, seg)
    requires p + 1 < |Anchors(ms)| && Anchors(ms)[p] <= j < Anchors(ms)[p + 1] - 1
    ensures Accumulated(ms, seg).Feature? && TableLookup(ms, seg).Feature?
    ensures |Accumulated(ms, seg).m| == |TableLookup(ms, seg).m| == |ms|
    ensures Accumulated(ms, seg).m[j] == TableLookup(ms, seg).m[j + 1]
  {
    var A, D := Anchors(ms), CumulativeDistances(seg);
    var a, b := A[p], A[p + 1];
    AccumulationSucceeds(ms, seg);
    AccumulatedGap(ms, seg, p, j);
    TableBetween(ms, seg, p, j + 1);
    DistancesNondecreasing(seg, a, j + 1);
    DistancesNondecreasing(seg, a, b);
    InterpolateIsLerp(ms[a], ms[b], D[a], D[b], D[j + 1], Sum(seg[a..j + 1]), Sum(seg[a..b]));
  }

  // ---------------------------------------------------------------- the shift, on one line

  /** The line of five vertices one unit apart with M-values [10, 0, 0, 0, 20]. */
  predicate IsExample(ms: seq<real>, seg: seq<real>)
  {
    |ms| == 5 && ms[0] == 10.0 && ms[1] == 0.0 && ms[2] == 0.0 && ms[3] == 0.0 && ms[4] == 20.0 &&
    |seg| == 4 && forall i :: 0 <= i < 4 ==> seg[i] == 1.0
  }

  lemma ExampleAnchors(ms: seq<real>, seg: seq<real>)
    requires IsExample(ms, seg)
    ensures |Anchors(ms)| == 2 && Anchors(ms)[0] == 0 && Anchors(ms)[1] == 4
  {
    var A := Anchors(ms);
    assert 0 in A && 4 in A;
    forall k | 0 <= k < |A|
      ensures A[k] == 0 || A[k] == 4
    {
      assert ms[A[k]] != 0.0;
    }
    assert A[0] < A[1];
    assert A[1] == 4 && A[|A| - 1] == 4;
  }

  lemma {:induction false} ExampleSums(ms: seq<real>, seg: seq<real>, i: nat)
    requires IsExample(ms, seg) && i <= 4
    ensures Sum(seg[..i]) == i as real
  {
    if i > 0 {
      ExampleSums(ms, seg, i - 1);
      assert seg[..i][..i - 1] == seg[..i - 1];
    }
  }

  lemma ExampleIncreasing(ms: seq<real>, seg: seq<real>)
    requires IsExample(ms, seg)
    ensures Shaped(ms, seg) && NonNegative(seg) && SamplePointsIncreasing(ms, seg)
  {
    ExampleAnchors(ms, seg);
    ExampleSums(ms, seg, 4);
    assert CumulativeDistances(seg)[4] == 4.0;
  }

  lemma ExampleAccumulatedSlot(ms: seq<real>, seg: seq<real>, j: nat)
    requires IsExample(ms, seg) && j < 4
    ensures Accumulated(ms, seg).Feature? && |Accumulated(ms, seg).m| == 5
    ensures Accumulated(ms, seg).m[j] == RoundHalfEven(Interpolate(10.0, 20.0, (j + 1) as real, 4.0)) as real
  {
    ExampleAnchors(ms, seg);
    ExampleIncreasing(ms, seg);
    AccumulationSucceeds(ms, seg);
    AccumulatedGap(ms, seg, 0, j);
    assert seg[0..j + 1] == seg[..j + 1];
    assert seg[0..4] == seg[..4];
    ExampleSums(ms, seg, j + 1);
    ExampleSums(ms, seg, 4);
  }

  /** On the example line the accumulation version overwrites the anchor 10 and repeats 20
      (12.5 and 17.5 round to the even neighbours 12 and 18). */
  lemma ShiftExample(ms: seq<real>, seg: seq<real>)
    requires IsExample(ms, seg)
    ensures Accumulated(ms, seg) == Feature([12.0, 15.0, 18.0, 20.0, 20.0])
  {
    ExampleAccumulatedSlot(ms, seg, 0);
    ExampleAccumulatedSlot(ms, seg, 1);
    ExampleAccumulatedSlot(ms, seg, 2);
    ExampleAccumulatedSlot(ms, seg, 3);
    ExampleAnchors(ms, seg);
    AccumulatedUntouched(ms, seg, 4);
    var out := Accumulated(ms, seg).m;
    assert Interpolate(10.0, 20.0, 1.0, 4.0) == 12.5 && Interpolate(10.0, 20.0, 2.0, 4.0) == 15.0;
    assert Interpolate(10.0, 20.0, 3.0, 4.0) == 17.5 && Interpolate(10.0, 20.0, 4.0, 4.0) == 20.0;
    assert RoundHalfEven(12.5) == 12 && RoundHalfEven(17.5) == 18;
    assert out[0] == 12.0 && out[1] == 15.0 && out[2] == 18.0 && out[3] == 20.0 && out[4] == 20.0;
  }

  lemma ExampleTableAnchor(ms: seq<real>, seg: seq<real>, j: nat)
    requires IsExample(ms, seg) && (j == 0 || j == 4)
    ensures Shaped(ms, seg) && SamplePointsIncreasing(ms, seg)
    ensures TableLookup(ms, seg).Feature? && |TableLookup(ms, seg).m| == 5
    ensures TableLookup(ms, seg).m[j] == ms[j]
  {
    ExampleAnchors(ms, seg);
    ExampleIncreasing(ms, seg);
    TableDropped(ms, seg);
    TableAnchorsKept(ms, seg, j);
  }

  /** The rounded straight line from (0, 10) to (4, 20) at the inner vertices 1, 2 and 3. */
  lemma ExampleLine(j: nat, v: real)
    requires (j == 1 && v == 12.0) || (j == 2 && v == 15.0) || (j == 3 && v == 18.0)
    ensures RoundHalfEven(Lerp(0.0, 4.0, 10.0, 20.0, j as real)) as real == v
  {
    assert Lerp(0.0, 4.0, 10.0, 20.0, 1.0) == 12.5 && Lerp(0.0, 4.0, 10.0, 20.0, 2.0) == 15.0;
    assert Lerp(0.0, 4.0, 10.0, 20.0, 3.0) == 17.5;
    assert RoundHalfEven(12.5) == 12 && RoundHalfEven(17.5) == 18;
  }

  lemma ExampleTableSlot(ms: seq<real>, seg: seq<real>, j: nat, v: real)
    requires IsExample(ms, seg)
    requires (j == 1 && v == 12.0) || (j == 2 && v == 15.0) || (j == 3 && v == 18.0)
    ensures Shaped(ms, seg) && SamplePointsIncreasing(ms, seg)
    ensures TableLookup(ms, seg).Feature? && |TableLookup(ms, seg).m| == 5
    ensures TableLookup(ms, seg).m[j] == v
  {
    ExampleAnchors(ms, seg);
    ExampleIncreasing(ms, seg);
    var D := CumulativeDistances(seg);
    ExampleSums(ms, seg, j);
    ExampleSums(ms, seg, 4);
    assert D[0] == 0.0 && D[j] == j as real && D[4] == 4.0;
    TableBetween(ms, seg, 0, j);
    ExampleLine(j, v);
  }

  /** On the same line the table-lookup version keeps both anchors. */
  lemma TableExample(ms: seq<real>, seg: seq<real>)
    requires IsExample(ms, seg)
    ensures Shaped(ms, seg) && SamplePointsIncreasing(ms, seg)
    ensures TableLookup(ms, seg) == Feature([10.0, 12.0, 15.0, 18.0, 20.0])
  {
    ExampleTableAnchor(ms, seg, 0);
    ExampleTableSlot(ms, seg, 1, 12.0);
    ExampleTableSlot(ms, seg, 2, 15.0);
    ExampleTableSlot(ms, seg, 3, 18.0);
    ExampleTableAnchor(ms, seg, 4);
    FiveValues(TableLookup(ms, seg).m, 10.0, 12.0, 15.0, 18.0, 20.0);
  }

  lemma FiveValues(s: seq<real>, v0: real, v1: real, v2: real, v3: real, v4: real)
    requires |s| == 5 && s[0] == v0 && s[1] == v1 && s[2] == v2 && s[3] == v3 && s[4] == v4
    ensures s == [v0, v1, v2, v3, v4]
  {
  }

  // ---------------------------------------------------------------- the corrected accumulation

  /** The pair (A[p], A[p+1]) with m_interpolated[a+1:b] = interp_m[:-1]: slot j of the open
      range (a, b) receives the value interpolated at vertex j; both anchors stay. */
  function WritePairKeepingAnchors(m: seq<real>, ms: seq<real>, seg: seq<real>, A: seq<nat>, p: nat): (m': seq<real>)
    requires Shaped(ms, seg) && |m| == |ms| && AnchorList(A, |ms|) && p + 1 < |A|
    requires GapLength(seg, A[p], A[p + 1]) != 0.0
    ensures |m'| == |m|
    ensures forall i :: 0 <= i < |m| && !(A[p] < i < A[p + 1]) ==> m'[i] == m[i]
    ensures forall i :: A[p] < i < A[p + 1] ==> m'[i] == SlotValue(ms, seg, A[p], A[p + 1], i - 1 - A[p])
  {
    m[..A[p] + 1] + GapValues(ms, seg, A[p], A[p + 1])[..A[p + 1] - A[p] - 1] + m[A[p + 1]..]
  }

  /** The slot after the as-written slot i of the pair p gets the value computed for slot i. */
  lemma WritePairKeepingAnchorsAt(m: seq<real>, ms: seq<real>, seg: seq<real>, A: seq<nat>, p: nat, i: nat)
    requires Shaped(ms, seg) && |m| == |ms| && AnchorList(A, |ms|) && p + 1 < |A|
    requires GapLength(seg, A[p], A[p + 1]) != 0.0 && A[p] <= i && i + 1 < A[p + 1]
    ensures WritePairKeepingAnchors(m, ms, seg, A, p)[i + 1] == SlotValue(ms, seg, A[p], A[p + 1], i - A[p])
  {
    var j := i + 1;
    assert WritePairKeepingAnchors(m, ms, seg, A, p)[j] == SlotValue(ms, seg, A[p], A[p + 1], j - 1 - A[p]);
  }

  function CorrectedPairs(m: seq<real>, ms: seq<real>, seg: seq<real>, A: seq<nat>, p: nat): Outcome
    requires Shaped(ms, seg) && |m| == |ms| && AnchorList(A, |ms|)
    decreases |A| - p
  {
    if p + 1 >= |A| then Feature(m)
    else if GapLength(seg, A[p], A[p + 1]) == 0.0 then Aborted
    else CorrectedPairs(WritePairKeepingAnchors(m, ms, seg, A, p), ms, seg, A, p + 1)
  }

  /** The accumulation version as evidently intended: anchors are kept. */
  function AccumulatedCorrected(ms: seq<real>, seg: seq<real>): Outcome
    requires Shaped(ms, seg)
  {
    CorrectedPairs(ms, ms, seg, Anchors(ms), 0)
  }

  lemma {:induction false} CorrectedOutcome(m: seq<real>, ms: seq<real>, seg: seq<real>, A: seq<nat>, p: nat)
    requires Shaped(ms, seg) && |m| == |ms| && AnchorList(A, |ms|)
    ensures CorrectedPairs(m, ms, seg, A, p).Feature? <==>
      forall k :: p <= k < |A| - 1 ==> GapLength(seg, A[k], A[k + 1]) != 0.0
    ensures CorrectedPairs(m, ms, seg, A, p).Feature? ==> |CorrectedPairs(m, ms, seg, A, p).m| == |m|
    decreases |A| - p
  {
    if p + 1 < |A| && GapLength(seg, A[p], A[p + 1]) != 0.0 {
      CorrectedOutcome(WritePairKeepingAnchors(m, ms, seg, A, p), ms, seg, A, p + 1);
    }
  }

  /** Slots at or before A[p], at or after the last anchor, and every anchor keep their value. */
  lemma {:induction false} CorrectedKeep(m: seq<real>, ms: seq<real>, seg: seq<real>, A: seq<nat>, p: nat, j: nat)
    requires Shaped(ms, seg) && |m| == |ms| && AnchorList(A, |ms|) && p < |A| && j < |m|
    requires CorrectedPairs(m, ms, seg, A, p).Feature?
    requires j <= A[p] || A[|A| - 1] <= j || j in A
    ensures |CorrectedPairs(m, ms, seg, A, p).m| == |m| && CorrectedPairs(m, ms, seg, A, p).m[j] == m[j]
    decreases |A| - p
  {
    CorrectedOutcome(m, ms, seg, A, p);
    if p + 1 < |A| {
      if j in A && A[p] < j < A[p + 1] {
        var l :| 0 <= l < |A| && A[l] == j;
        AnchorOrder(A, p, l);
      }
      CorrectedKeep(WritePairKeepingAnchors(m, ms, seg, A, p), ms, seg, A, p + 1, j);
    }
  }

  /** Anchors strictly between two consecutive anchors cannot exist. */
  lemma AnchorOrder(A: seq<nat>, p: nat, l: nat)
    requires Increasing(A) && p + 1 < |A| && l < |A|
    ensures !(A[p] < A[l] < A[p + 1])
  {
    if l <= p {
      assert A[l] <= A[p];
    } else {
      assert A[p + 1] <= A[l];
    }
  }

  lemma {:induction false} CorrectedSlot(m: seq<real>, ms: seq<real>, seg: seq<real>, A: seq<nat>, p: nat, k: nat, i: nat)
    requires Shaped(ms, seg) && |m| == |ms| && AnchorList(A, |ms|)
    requires CorrectedPairs(m, ms, seg, A, p).Feature?
    requires p <= k < |A| - 1 && A[k] <= i && i + 1 < A[k + 1]
    ensures |CorrectedPairs(m, ms, seg, A, p).m| == |m| && GapLength(seg, A[k], A[k + 1]) != 0.0 &&
      CorrectedPairs(m, ms, seg, A, p).m[i + 1] == SlotValue(ms, seg, A[k], A[k + 1], i - A[k])
    decreases |A| - p
  {
    if k == p {
      CorrectedSlotFirst(m, ms, seg, A, p, i);
    } else {
      CorrectedOutcome(m, ms, seg, A, p);
      CorrectedSlot(WritePairKeepingAnchors(m, ms, seg, A, p), ms, seg, A, p + 1, k, i);
    }
  }

  /** The slot after the as-written slot i of the first pair p keeps the value that pair writes. */
  lemma CorrectedSlotFirst(m: seq<real>, ms: seq<real>, seg: seq<real>, A: seq<nat>, p: nat, i: nat)
    requires Shaped(ms, seg) && |m| == |ms| && AnchorList(A, |ms|)
    requires CorrectedPairs(m, ms, seg, A, p).Feature?
    requires p < |A| - 1 && A[p] <= i && i + 1 < A[p + 1]
    ensures |CorrectedPairs(m, ms, seg, A, p).m| == |m| && GapLength(seg, A[p], A[p + 1]) != 0.0 &&
      CorrectedPairs(m, ms, seg, A, p).m[i + 1] == SlotValue(ms, seg, A[p], A[p + 1], i - A[p])
  {
    CorrectedOutcome(m, ms, seg, A, p);
    WritePairKeepingAnchorsAt(m, ms, seg, A, p, i);
    CorrectedKeep(WritePairKeepingAnchors(m, ms, seg, A, p), ms, seg, A, p + 1, i + 1);
  }

  lemma CorrectedAnchorKept(ms: seq<real>, seg: seq<real>, j: nat)
    requires Shaped(ms, seg) && SamplePointsIncreasing(ms, seg) && j < |ms| && ms[j] != 0.0
    ensures AccumulatedCorrected(ms, seg).Feature? && TableLookup(ms, seg).Feature?
    ensures |AccumulatedCorrected(ms, seg).m| == |TableLookup(ms, seg).m| == |ms|
    ensures AccumulatedCorrected(ms, seg).m[j] == TableLookup(ms, seg).m[j] == ms[j]
  {
    var A := Anchors(ms);
    AccumulationSucceeds(ms, seg);
    PairsOutcome(ms, ms, seg, A, 0);
    CorrectedOutcome(ms, ms, seg, A, 0);
    CorrectedKeep(ms, ms, seg, A, 0, j);
    TableAnchorsKept(ms, seg, j);
  }

  /** The corrected accumulation fails exactly when the as-written one does. */
  lemma CorrectedSucceeds(ms: seq<real>, seg: seq<real>)
    requires Shaped(ms, seg)
    ensures AccumulatedCorrected(ms, seg).Feature? <==> Accumulated(ms, seg).Feature?
    ensures AccumulatedCorrected(ms, seg).Feature? ==> |AccumulatedCorrected(ms, seg).m| == |ms|
  {
    CorrectedOutcome(ms, ms, seg, Anchors(ms), 0);
    PairsOutcome(ms, ms, seg, Anchors(ms), 0);
  }

  /** Strictly inside a pair the corrected accumulation writes at slot i + 1 what the as-written
      one writes at slot i. */
  lemma CorrectedIsShifted(ms: seq<real>, seg: seq<real>, p: nat, i: nat)
    requires Shaped(ms, seg) && AccumulatedCorrected(ms, seg).Feature? && Accumulated(ms, seg).Feature?
    requires p + 1 < |Anchors(ms)| && Anchors(ms)[p] <= i && i + 1 < Anchors(ms)[p + 1]
    ensures |AccumulatedCorrected(ms, seg).m| == |Accumulated(ms, seg).m| == |ms|
    ensures AccumulatedCorrected(ms, seg).m[i + 1] == Accumulated(ms, seg).m[i]
  {
    var A := Anchors(ms);
    CorrectedSlot(ms, ms, seg, A, 0, p, i);
    PairsSlot(ms, ms, seg, A, 0, p, i);
  }

  /** Strictly between consecutive anchors both give the value interpolated at the vertex's own
      distance: the corrected slot i + 1 is the as-written slot i, which is the table's slot i + 1. */
  lemma CorrectedBetween(ms: seq<real>, seg: seq<real>, p: nat, i: nat)
    requires Shaped(ms, seg) && NonNegative(seg) && SamplePointsIncreasing(ms, seg)
    requires p + 1 < |Anchors(ms)| && Anchors(ms)[p] <= i && i + 1 < Anchors(ms)[p + 1]
    ensures AccumulatedCorrected(ms, seg).Feature? && TableLookup(ms, seg).Feature?
    ensures |AccumulatedCorrected(ms, seg).m| == |TableLookup(ms, seg).m| == |ms|
    ensures AccumulatedCorrected(ms, seg).m[i + 1] == TableLookup(ms, seg).m[i + 1]
  {
    ShiftedAgreement(ms, seg, p, i);
    CorrectedSucceeds(ms, seg);
    CorrectedIsShifted(ms, seg, p, i);
  }

  /** The slot before slot j. It is obtained from this lemma, not written as j - 1, so that the
      solver sees i and i + 1 and never the subtraction; the term j - 1 set beside the anchor
      and distance quantifiers makes the proofs that use it far slower. */
  lemma Predecessor(j: nat) returns (i: nat)
    requires j > 0
    ensures i + 1 == j
  {
    i := j - 1;
  }

  /** CorrectedBetween stated for the slot j itself. */
  lemma CorrectedInside(ms: seq<real>, seg: seq<real>, p: nat, j: nat)
    requires Shaped(ms, seg) && NonNegative(seg) && SamplePointsIncreasing(ms, seg)
    requires p + 1 < |Anchors(ms)| && Anchors(ms)[p] < j < Anchors(ms)[p + 1]
    ensures AccumulatedCorrected(ms, seg).Feature? && TableLookup(ms, seg).Feature?
    ensures |AccumulatedCorrected(ms, seg).m| == |TableLookup(ms, seg).m| == |ms|
    ensures AccumulatedCorrected(ms, seg).m[j] == TableLookup(ms, seg).m[j]
  {
    var i := Predecessor(j);
    CorrectedBetween(ms, seg, p, i);
  }

  /** Strictly between consecutive anchors the corrected accumulation never overshoots the two
      anchor values (rounded). */
  lemma CorrectedBounds(ms: seq<real>, seg: seq<real>, p: nat, j: nat)
    requires Shaped(ms, seg) && NonNegative(seg) && AccumulatedCorrected(ms, seg).Feature?
    requires p + 1 < |Anchors(ms)| && Anchors(ms)[p] < j < Anchors(ms)[p + 1]
    ensures var A := Anchors(ms); var a, b := A[p], A[p + 1]; var out := AccumulatedCorrected(ms, seg).m;
      |out| == |ms| &&
      RoundHalfEven(Min(ms[a], ms[b])) as real <= out[j] <= RoundHalfEven(Max(ms[a], ms[b])) as real
  {
    var i := Predecessor(j);
    CorrectedSucceeds(ms, seg);
    CorrectedIsShifted(ms, seg, p, i);
    AccumulatedBounds(ms, seg, p, i);
  }

  /** Strictly between consecutive anchors the corrected values run from the first anchor value
      towards the next. */
  lemma CorrectedMonotone(ms: seq<real>, seg: seq<real>, p: nat, i: nat, j: nat)
    requires Shaped(ms, seg) && NonNegative(seg) && AccumulatedCorrected(ms, seg).Feature?
    requires p + 1 < |Anchors(ms)| && Anchors(ms)[p] < i < j < Anchors(ms)[p + 1]
    ensures var A := Anchors(ms); var a, b := A[p], A[p + 1]; var out := AccumulatedCorrected(ms, seg).m;
      |out| == |ms| &&
      (ms[a] <= ms[b] ==> out[i] <= out[j]) &&
      (ms[b] <= ms[a] ==> out[j] <= out[i])
  {
    var A := Anchors(ms);
    var a, b := A[p], A[p + 1];
    var i0 := Predecessor(i);
    var j0 := Predecessor(j);
    CorrectedMonotoneShifted(ms, seg, p, i0, j0);
  }

  /** CorrectedMonotone at the slots i0 + 1 and j0 + 1, from the as-written slots i0 and j0. */
  lemma CorrectedMonotoneShifted(ms: seq<real>, seg: seq<real>, p: nat, i0: nat, j0: nat)
    requires Shaped(ms, seg) && NonNegative(seg) && AccumulatedCorrected(ms, seg).Feature?
    requires p + 1 < |Anchors(ms)| && Anchors(ms)[p] <= i0 < j0 && j0 + 1 < Anchors(ms)[p + 1]
    ensures var A := Anchors(ms); var a, b := A[p], A[p + 1]; var out := AccumulatedCorrected(ms, seg).m;
      |out| == |ms| &&
      (ms[a] <= ms[b] ==> out[i0 + 1] <= out[j0 + 1]) &&
      (ms[b] <= ms[a] ==> out[j0 + 1] <= out[i0 + 1])
  {
    CorrectedSucceeds(ms, seg);
    CorrectedIsShifted(ms, seg, p, i0);
    CorrectedIsShifted(ms, seg, p, j0);
    AccumulatedMonotone(ms, seg, p, i0, j0);
  }

  /** The corrected accumulation agrees with the table lookup at every slot from the first
      anchor to the last. */
  lemma CorrectedMatchesTable(ms: seq<real>, seg: seq<real>, j: nat)
    requires Shaped(ms, seg) && NonNegative(seg) && SamplePointsIncreasing(ms, seg)
    requires |Anchors(ms)| > 0 && Anchors(ms)[0] <= j <= Anchors(ms)[|Anchors(ms)| - 1]
    ensures AccumulatedCorrected(ms, seg).Feature? && TableLookup(ms, seg).Feature?
    ensures |AccumulatedCorrected(ms, seg).m| == |TableLookup(ms, seg).m| == |ms|
    ensures AccumulatedCorrected(ms, seg).m[j] == TableLookup(ms, seg).m[j]
  {
    var A := Anchors(ms);
    if ms[j] != 0.0 {
      CorrectedAnchorKept(ms, seg, j);
    } else {
      assert j != A[0] && j != A[|A| - 1];
      PairCover(A, j, 0);
      var k :| 0 <= k < |A| - 1 && A[k] <= j < A[k + 1];
      assert A[k] != j;
      CorrectedInside(ms, seg, k, j);
    }
  }
}
