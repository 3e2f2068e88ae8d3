/** The table-lookup version of the per-feature step (InterpolateMValuesNumpy.processFeature): it
    builds the cumulative distance of every vertex, looks up the non-anchor vertices' distances in
    the table of (anchor distance, anchor M-value) pairs with np.interp, rounds them with np.around
    and writes them into a copy of the M-values at the non-anchor indices. Anchors are never
    written; np.interp clamps to the first and last anchor value outside the anchors' range. */
module InterpolateMValuesNumpy {
  import opened LineM

  // ---------------------------------------------------------------- the array pipeline

  /** np.cumsum(np.insert(length_segments, 0, 0)): the distance along the line from vertex 0. */
  function CumulativeDistances(seg: seq<real>): (D: seq<real>)
    ensures |D| == |seg| + 1
    ensures D[0] == 0.0
    ensures forall i :: 0 <= i < |D| ==> D[i] == Sum(seg[..i])
  {
    LeadingZeroSums(seg);
    PartialSums([0.0] + seg)
  }

  lemma LeadingZeroSums(seg: seq<real>)
    ensures forall i :: 0 <= i <= |seg| ==> Sum(([0.0] + seg)[..i + 1]) == Sum(seg[..i])
  {
    forall i | 0 <= i <= |seg|
      ensures Sum(([0.0] + seg)[..i + 1]) == Sum(seg[..i])
    {
      assert ([0.0] + seg)[..i + 1] == [0.0] + seg[..i];
      SumCons(0.0, seg[..i]);
    }
  }

  /** With non-negative segments the cumulative distances never decrease, and the distance from
      vertex i to vertex j is the sum of the segments between them. */
  lemma DistancesNondecreasing(seg: seq<real>, i: nat, j: nat)
    requires NonNegative(seg) && i <= j <= |seg|
    ensures CumulativeDistances(seg)[i] <= CumulativeDistances(seg)[j]
    ensures CumulativeDistances(seg)[j] - CumulativeDistances(seg)[i] == Sum(seg[i..j])
  {
    PrefixSumMonotone(seg, i, j);
    SumSlice(seg, i, j);
  }

  /** Fancy indexing s[idx]. */
  function Select(s: seq<real>, idx: seq<nat>): (r: seq<real>)
    requires forall k :: 0 <= k < |idx| ==> idx[k] < |s|
    ensures |r| == |idx|
  {
    seq(|idx|, k requires 0 <= k < |idx| => s[idx[k]])
  }

  /** The positions in [i, n) that are not listed in idx, ascending. */
  function ComplementFrom(n: nat, idx: seq<nat>, i: nat): (Z: seq<nat>)
    ensures forall k :: 0 <= k < |Z| ==> i <= Z[k] < n && Z[k] !in idx
    ensures forall j :: i <= j < n && j !in idx ==> j in Z
    ensures Increasing(Z)
    decreases n - i
  {
    if i >= n then []
    else if i in idx then ComplementFrom(n, idx, i + 1)
    else [i] + ComplementFrom(n, idx, i + 1)
  }

  /** np.delete(s, idx): s without the elements at the positions listed in idx, in order. */
  function Delete(s: seq<real>, idx: seq<nat>): (r: seq<real>)
    ensures |r| == |ComplementFrom(|s|, idx, 0)|
    ensures forall k :: 0 <= k < |r| ==> r[k] == s[ComplementFrom(|s|, idx, 0)[k]]
  {
    Select(s, ComplementFrom(|s|, idx, 0))
  }

  /** np.delete(range(n), idx): the indices of [0, n) that are not listed in idx. */
  function DeleteIndices(n: nat, idx: seq<nat>): seq<nat>
  {
    ComplementFrom(n, idx, 0)
  }

  predicate StrictlyIncreasing(xp: seq<real>)
  {
    forall k, l :: 0 <= k < l < |xp| ==> xp[k] < xp[l]
  }

  /** The straight line through (x0, y0) and (x1, y1) at x, as np.interp evaluates it:
      slope * (x - x0) + y0. */
  function Lerp(x0: real, x1: real, y0: real, y1: real, x: real): real
    requires x0 != x1
  {
    (y1 - y0) / (x1 - x0) * (x - x0) + y0
  }

  /** np.interp(x, xp, fp) for strictly increasing sample points: fp[0] at or left of xp[0],
      fp[|fp|-1] at or right of the last sample point, and in between the straight line through
      the two samples that enclose x. */
  function Interp(x: real, xp: seq<real>, fp: seq<real>): real
    requires |xp| == |fp| > 0 && StrictlyIncreasing(xp)
    decreases |xp|
  {
    if |xp| == 1 || x <= xp[0] then fp[0]
    else if x <= xp[1] then Lerp(xp[0], xp[1], fp[0], fp[1], x)
    else Interp(x, xp[1..], fp[1..])
  }

  /** np.interp evaluated at every element of xs. */
  function InterpAll(xs: seq<real>, xp: seq<real>, fp: seq<real>): (ys: seq<real>)
    requires |xp| == |fp| > 0 && StrictlyIncreasing(xp)
    ensures |ys| == |xs|
  {
    seq(|xs|, k requires 0 <= k < |xs| => Interp(xs[k], xp, fp))
  }

  /** np.around(v, decimals=0): every element rounded half to even. */
  function Around(v: seq<real>): (r: seq<real>)
    ensures |r| == |v|
  {
    seq(|v|, k requires 0 <= k < |v| => RoundHalfEven(v[k]) as real)
  }

  /** m[idx] = vals: the elements are assigned one after the other, in the order of idx. */
  function Scatter(m: seq<real>, idx: seq<nat>, vals: seq<real>): (r: seq<real>)
    requires |idx| == |vals| && forall k :: 0 <= k < |idx| ==> idx[k] < |m|
    ensures |r| == |m|
    decreases |idx|
  {
    if idx == [] then m else Scatter(m[idx[0] := vals[0]], idx[1..], vals[1..])
  }

  // ---------------------------------------------------------------- the per-feature result

  /** np.interp gives meaningful results only for increasing sample points: the anchors'
      cumulative distances must strictly increase. */
  predicate SamplePointsIncreasing(ms: seq<real>, seg: seq<real>)
    requires Shaped(ms, seg)
  {
    StrictlyIncreasing(Select(CumulativeDistances(seg), Anchors(ms)))
  }

  /** The anchors' cumulative distances, pair by pair. */
  lemma SamplePointsAt(ms: seq<real>, seg: seq<real>, k: nat, l: nat)
    requires Shaped(ms, seg) && SamplePointsIncreasing(ms, seg) && k < l < |Anchors(ms)|
    ensures CumulativeDistances(seg)[Anchors(ms)[k]] < CumulativeDistances(seg)[Anchors(ms)[l]]
  {
    var xp := Select(CumulativeDistances(seg), Anchors(ms));
    assert xp[k] < xp[l];
  }

  /** The new M-values of one feature. With no anchor, np.interp raises on its empty sample
      points and the handler drops the feature. */
  function TableLookup(ms: seq<real>, seg: seq<real>): Outcome
    requires Shaped(ms, seg) && SamplePointsIncreasing(ms, seg)
  {
    var A := Anchors(ms);
    if |A| == 0 then Dropped
    else
      var D := CumulativeDistances(seg);
      var xp, fp := Select(D, A), Select(ms, A);
      var ys := Around(InterpAll(Delete(D, A), xp, fp));
      Feature(Scatter(ms, DeleteIndices(|ms|, A), ys))
  }

  // ---------------------------------------------------------------- np.interp

  lemma LerpAtStart(x0: real, x1: real, y0: real, y1: real)
    requires x0 != x1
    ensures Lerp(x0, x1, y0, y1, x0) == y0
  {
    assert (y1 - y0) / (x1 - x0) * (x0 - x0) == 0.0;
  }

  lemma LerpAtEnd(x0: real, x1: real, y0: real, y1: real)
    requires x0 != x1
    ensures Lerp(x0, x1, y0, y1, x1) == y1
  {
    assert (y1 - y0) / (x1 - x0) * (x1 - x0) == y1 - y0;
  }

  /** The straight line through two samples with x0 < x1 rises with x when y0 <= y1 and falls
      when y1 <= y0. */
  lemma LerpMonotone(x0: real, x1: real, y0: real, y1: real, x: real, x2: real)
    requires x0 < x1 && x <= x2
    ensures y0 <= y1 ==> Lerp(x0, x1, y0, y1, x) <= Lerp(x0, x1, y0, y1, x2)
    ensures y1 <= y0 ==> Lerp(x0, x1, y0, y1, x2) <= Lerp(x0, x1, y0, y1, x)
  {
    var slope := (y1 - y0) / (x1 - x0);
    assert Lerp(x0, x1, y0, y1, x2) - Lerp(x0, x1, y0, y1, x) == slope * (x2 - x);
    if y0 <= y1 {
      assert slope >= 0.0;
      ProductNonNegative(slope, x2 - x);
    } else {
      assert -slope == (y0 - y1) / (x1 - x0);
      ProductNonNegative(-slope, x2 - x);
      assert (-slope) * (x2 - x) == -(slope * (x2 - x));
    }
  }

  /** Between its two samples the straight line stays between their values. */
  lemma LerpBetween(x0: real, x1: real, y0: real, y1: real, x: real)
    requires x0 < x1 && x0 <= x <= x1
    ensures Min(y0, y1) <= Lerp(x0, x1, y0, y1, x) <= Max(y0, y1)
  {
    LerpAtStart(x0, x1, y0, y1);
    LerpAtEnd(x0, x1, y0, y1);
    LerpMonotone(x0, x1, y0, y1, x0, x);
    LerpMonotone(x0, x1, y0, y1, x, x1);
  }

  lemma InterpLeft(x: real, xp: seq<real>, fp: seq<real>)
    requires |xp| == |fp| > 0 && StrictlyIncreasing(xp) && x <= xp[0]
    ensures Interp(x, xp, fp) == fp[0]
  {
  }

  /** At or right of the last sample point np.interp returns the last value. */
  lemma {:induction false} InterpRight(x: real, xp: seq<real>, fp: seq<real>)
    requires |xp| == |fp| > 0 && StrictlyIncreasing(xp) && xp[|xp| - 1] <= x
    ensures Interp(x, xp, fp) == fp[|fp| - 1]
    decreases |xp|
  {
    if |xp| > 1 {
      if x <= xp[1] {
        assert |xp| == 2 && x == xp[1];
        LerpAtEnd(xp[0], xp[1], fp[0], fp[1]);
      } else {
        InterpRight(x, xp[1..], fp[1..]);
      }
    }
  }

  /** Between the samples k and k + 1 np.interp is the straight line through them. */
  lemma {:induction false} InterpSegment(x: real, xp: seq<real>, fp: seq<real>, k: nat)
    requires |xp| == |fp| && StrictlyIncreasing(xp) && k + 1 < |xp| && xp[k] <= x <= xp[k + 1]
    ensures Interp(x, xp, fp) == Lerp(xp[k], xp[k + 1], fp[k], fp[k + 1], x)
    decreases k
  {
    if k > 0 {
      if x <= xp[1] {
        assert k == 1 && x == xp[1];
        LerpAtEnd(xp[0], xp[1], fp[0], fp[1]);
        LerpAtStart(xp[1], xp[2], fp[1], fp[2]);
      } else {
        InterpSegment(x, xp[1..], fp[1..], k - 1);
      }
    }
  }

  // ---------------------------------------------------------------- fancy-index write

  /** Positions not listed are not written. */
  lemma {:induction false} ScatterOutside(m: seq<real>, idx: seq<nat>, vals: seq<real>, i: nat)
    requires |idx| == |vals| && forall k :: 0 <= k < |idx| ==> idx[k] < |m|
    requires i < |m| && i !in idx
    ensures Scatter(m, idx, vals)[i] == m[i]
    decreases |idx|
  {
    if idx != [] {
      ScatterOutside(m[idx[0] := vals[0]], idx[1..], vals[1..], i);
    }
  }

  /** With distinct (ascending) positions, the k-th listed position receives the k-th value. */
  lemma {:induction false} ScatterAt(m: seq<real>, idx: seq<nat>, vals: seq<real>, k: nat)
    requires |idx| == |vals| && (forall l :: 0 <= l < |idx| ==> idx[l] < |m|) && Increasing(idx)
    requires k < |idx|
    ensures Scatter(m, idx, vals)[idx[k]] == vals[k]
    decreases |idx|
  {
    if k == 0 {
      ScatterOutside(m[idx[0] := vals[0]], idx[1..], vals[1..], idx[0]);
    } else {
      ScatterAt(m[idx[0] := vals[0]], idx[1..], vals[1..], k - 1);
    }
  }

  // ---------------------------------------------------------------- properties of the result

  /** The feature is dropped exactly when it has no anchor; it never aborts. */
  lemma TableDropped(ms: seq<real>, seg: seq<real>)
    requires Shaped(ms, seg) && SamplePointsIncreasing(ms, seg)
    ensures TableLookup(ms, seg) == Dropped <==> |Anchors(ms)| == 0
    ensures TableLookup(ms, seg).Feature? <==> |Anchors(ms)| > 0
  {
  }

  /** The non-anchor indices, ascending, and the distances looked up for them: the k-th
      non-anchor index is paired with the k-th non-anchor distance. */
  lemma NonAnchorIndices(ms: seq<real>, seg: seq<real>)
    requires Shaped(ms, seg) && |ms| > 0
    ensures var Z := DeleteIndices(|ms|, Anchors(ms)); var D := CumulativeDistances(seg);
      Increasing(Z) &&
      (forall i :: 0 <= i < |ms| ==> (i in Z <==> ms[i] == 0.0)) &&
      |Delete(D, Anchors(ms))| == |Z| &&
      (forall k :: 0 <= k < |Z| ==> Delete(D, Anchors(ms))[k] == D[Z[k]])
  {
    var A := Anchors(ms);
    forall i | 0 <= i < |ms|
      ensures i in A <==> ms[i] != 0.0
    {
    }
  }

  /** The result has one value per vertex, and every anchor keeps its M-value exactly. */
  lemma TableAnchorsKept(ms: seq<real>, seg: seq<real>, i: nat)
    requires Shaped(ms, seg) && SamplePointsIncreasing(ms, seg) && TableLookup(ms, seg).Feature?
    requires i < |ms| && ms[i] != 0.0
    ensures |TableLookup(ms, seg).m| == |ms| && TableLookup(ms, seg).m[i] == ms[i]
  {
    var A := Anchors(ms);
    var D := CumulativeDistances(seg);
    var ys := Around(InterpAll(Delete(D, A), Select(D, A), Select(ms, A)));
    ScatterOutside(ms, DeleteIndices(|ms|, A), ys, i);
  }

  /** Every non-anchor vertex receives the rounded np.interp value at its own cumulative
      distance. */
  lemma TableNonAnchor(ms: seq<real>, seg: seq<real>, i: nat)
    requires Shaped(ms, seg) && SamplePointsIncreasing(ms, seg) && TableLookup(ms, seg).Feature?
    requires i < |ms| && ms[i] == 0.0
    ensures var A, D := Anchors(ms), CumulativeDistances(seg);
      |TableLookup(ms, seg).m| == |ms| && i < |D| &&
      TableLookup(ms, seg).m[i] == RoundHalfEven(Interp(D[i], Select(D, A), Select(ms, A))) as real
  {
    var A := Anchors(ms);
    var D := CumulativeDistances(seg);
    var xs := Delete(D, A);
    var ys := Around(InterpAll(xs, Select(D, A), Select(ms, A)));
    var Z := DeleteIndices(|ms|, A);
    NonAnchorIndices(ms, seg);
    var k :| 0 <= k < |Z| && Z[k] == i;
    ScatterAt(ms, Z, ys, k);
    assert ys[k] == RoundHalfEven(Interp(xs[k], Select(D, A), Select(ms, A))) as real;
  }

  /** A non-anchor vertex j between consecutive anchors a < b receives
      round((vb - va) / (D[b] - D[a]) * (D[j] - D[a]) + va). */
  lemma TableBetween(ms: seq<real>, seg: seq<real>, p: nat, j: nat)
    requires Shaped(ms, seg) && NonNegative(seg) && SamplePointsIncreasing(ms, seg)
    requires p + 1 < |Anchors(ms)| && Anchors(ms)[p] < j < Anchors(ms)[p + 1]
    ensures var A, D := Anchors(ms), CumulativeDistances(seg); var a, b := A[p], A[p + 1];
      TableLookup(ms, seg).Feature? && |TableLookup(ms, seg).m| == |ms| && b < |D| && D[a] < D[b] &&
      TableLookup(ms, seg).m[j] == RoundHalfEven(Lerp(D[a], D[b], ms[a], ms[b], D[j])) as real
  {
    var A := Anchors(ms);
    var D := CumulativeDistances(seg);
    var a, b := A[p], A[p + 1];
    NoAnchorBetween(ms, p, j);
    TableNonAnchor(ms, seg, j);
    DistancesNondecreasing(seg, a, j);
    DistancesNondecreasing(seg, j, b);
    InterpSegment(D[j], Select(D, A), Select(ms, A), p);
  }

  /** With gaps of n and m equal steps c from x0, the straight line is interpolation by the
      fraction n / m. */
  lemma LerpEvenSteps(x0: real, x1: real, x: real, y0: real, y1: real, c: real, n: real, m: real)
    requires x0 < x1 && m != 0.0 && x1 - x0 == m * c && x - x0 == n * c
    ensures Lerp(x0, x1, y0, y1, x) == n / m * (y1 - y0) + y0
  {
    if c == 0.0 {
      assert false;
    }
    var d := y1 - y0;
    assert d / (m * c) * (n * c) == n / m * d;
  }

  /** The value at index j on the straight line through (a, y0) and (b, y1). It names the term
      so that the solver can match it by its arguments rather than through arithmetic. */
  function EvenStep(a: int, j: int, b: int, y0: real, y1: real): real
    requires a < b
  {
    (j - a) as real / (b - a) as real * (y1 - y0) + y0
  }

  /** Over segments of one length c from vertex a to vertex b, interpolating by distance is
      interpolating by index. */
  lemma EvenLerp(seg: seq<real>, a: nat, j: nat, b: nat, c: real, x0: real, x1: real, x: real, y0: real, y1: real)
    requires a < j < b <= |seg| && forall i :: a <= i < b ==> seg[i] == c
    requires x0 < x1 && x - x0 == Sum(seg[a..j]) && x1 - x0 == Sum(seg[a..b])
    ensures Lerp(x0, x1, y0, y1, x) == EvenStep(a, j, b, y0, y1)
  {
    SumConstant(seg, a, j, c);
    SumConstant(seg, a, b, c);
    LerpEvenSteps(x0, x1, x, y0, y1, c, (j - a) as real, (b - a) as real);
  }

  /** Where all segments between two consecutive anchors have one length, a vertex between them
      is interpolated by its index: the value at a + n of b - a equal steps. */
  lemma TableEvenSegments(ms: seq<real>, seg: seq<real>, p: nat, j: nat, c: real)
    requires Shaped(ms, seg) && NonNegative(seg) && SamplePointsIncreasing(ms, seg)
    requires p + 1 < |Anchors(ms)| && Anchors(ms)[p] < j < Anchors(ms)[p + 1]
    requires forall i :: Anchors(ms)[p] <= i < Anchors(ms)[p + 1] ==> seg[i] == c
    ensures var A := Anchors(ms); var a, b := A[p], A[p + 1];
      TableLookup(ms, seg).Feature? && |TableLookup(ms, seg).m| == |ms| &&
      TableLookup(ms, seg).m[j] == RoundHalfEven((j - a) as real / (b - a) as real * (ms[b] - ms[a]) + ms[a]) as real
  {
    var A, D := Anchors(ms), CumulativeDistances(seg);
    var a, b := A[p], A[p + 1];
    TableBetween(ms, seg, p, j);
    DistancesNondecreasing(seg, a, j);
    DistancesNondecreasing(seg, a, b);
    EvenLerp(seg, a, j, b, c, D[a], D[b], D[j], ms[a], ms[b]);
  }

  /** Between consecutive anchors the result never overshoots the two anchor values (rounded). */
  lemma TableBounds(ms: seq<real>, seg: seq<real>, p: nat, j: nat)
    requires Shaped(ms, seg) && NonNegative(seg) && SamplePointsIncreasing(ms, seg)
    requires p + 1 < |Anchors(ms)| && Anchors(ms)[p] < j < Anchors(ms)[p + 1]
    ensures var A := Anchors(ms); var a, b := A[p], A[p + 1];
      TableLookup(ms, seg).Feature? && |TableLookup(ms, seg).m| == |ms| &&
      RoundHalfEven(Min(ms[a], ms[b])) as real <= TableLookup(ms, seg).m[j] <= RoundHalfEven(Max(ms[a], ms[b])) as real
  {
    var A, D := Anchors(ms), CumulativeDistances(seg);
    var a, b := A[p], A[p + 1];
    TableBetween(ms, seg, p, j);
    DistancesNondecreasing(seg, a, j);
    DistancesNondecreasing(seg, j, b);
    var v := Lerp(D[a], D[b], ms[a], ms[b], D[j]);
    LerpBetween(D[a], D[b], ms[a], ms[b], D[j]);
    RoundMonotone(Min(ms[a], ms[b]), v);
    RoundMonotone(v, Max(ms[a], ms[b]));
  }

  /** Between consecutive anchors the result runs from the first anchor value towards the next:
      non-decreasing when it is the larger, non-increasing when it is the smaller. */
  lemma TableMonotone(ms: seq<real>, seg: seq<real>, p: nat, i: nat, j: nat)
    requires Shaped(ms, seg) && NonNegative(seg) && SamplePointsIncreasing(ms, seg)
    requires p + 1 < |Anchors(ms)| && Anchors(ms)[p] < i < j < Anchors(ms)[p + 1]
    ensures var A := Anchors(ms); var a, b := A[p], A[p + 1];
      TableLookup(ms, seg).Feature? && |TableLookup(ms, seg).m| == |ms| &&
      (ms[a] <= ms[b] ==> TableLookup(ms, seg).m[i] <= TableLookup(ms, seg).m[j]) &&
      (ms[b] <= ms[a] ==> TableLookup(ms, seg).m[j] <= TableLookup(ms, seg).m[i])
  {
    var A, D := Anchors(ms), CumulativeDistances(seg);
    var a, b := A[p], A[p + 1];
    TableBetween(ms, seg, p, i);
    TableBetween(ms, seg, p, j);
    DistancesNondecreasing(seg, i, j);
    var vi, vj := Lerp(D[a], D[b], ms[a], ms[b], D[i]), Lerp(D[a], D[b], ms[a], ms[b], D[j]);
    LerpMonotone(D[a], D[b], ms[a], ms[b], D[i], D[j]);
    if ms[a] <= ms[b] {
      RoundMonotone(vi, vj);
    }
    if ms[b] <= ms[a] {
      RoundMonotone(vj, vi);
    }
  }

  /** np.interp clamps: a vertex before the first anchor receives the rounded first anchor
      value. */
  lemma TableBeforeFirst(ms: seq<real>, seg: seq<real>, j: nat)
    requires Shaped(ms, seg) && NonNegative(seg) && SamplePointsIncreasing(ms, seg)
    requires |Anchors(ms)| > 0 && j < Anchors(ms)[0]
    ensures TableLookup(ms, seg).Feature? && |TableLookup(ms, seg).m| == |ms| &&
      TableLookup(ms, seg).m[j] == RoundHalfEven(ms[Anchors(ms)[0]]) as real
  {
    var A := Anchors(ms);
    var D := CumulativeDistances(seg);
    NoAnchorBefore(ms, j);
    TableNonAnchor(ms, seg, j);
    DistancesNondecreasing(seg, j, A[0]);
    InterpLeft(D[j], Select(D, A), Select(ms, A));
  }

  /** ... and a vertex after the last anchor receives the rounded last anchor value. */
  lemma TableAfterLast(ms: seq<real>, seg: seq<real>, j: nat)
    requires Shaped(ms, seg) && NonNegative(seg) && SamplePointsIncreasing(ms, seg)
    requires |Anchors(ms)| > 0 && Anchors(ms)[|Anchors(ms)| - 1] < j < |ms|
    ensures TableLookup(ms, seg).Feature? && |TableLookup(ms, seg).m| == |ms| &&
      TableLookup(ms, seg).m[j] == RoundHalfEven(ms[Anchors(ms)[|Anchors(ms)| - 1]]) as real
  {
    var A := Anchors(ms);
    var D := CumulativeDistances(seg);
    NoAnchorAfter(ms, j);
    TableNonAnchor(ms, seg, j);
    InterpAfterLast(ms, seg, j);
  }

  /** np.interp at the distance of a vertex from the last anchor on gives the last anchor value. */
  lemma InterpAfterLast(ms: seq<real>, seg: seq<real>, j: nat)
    requires Shaped(ms, seg) && NonNegative(seg) && SamplePointsIncreasing(ms, seg)
    requires |Anchors(ms)| > 0 && Anchors(ms)[|Anchors(ms)| - 1] <= j < |ms|
    ensures var A, D := Anchors(ms), CumulativeDistances(seg);
      j < |D| && Interp(D[j], Select(D, A), Select(ms, A)) == ms[A[|A| - 1]]
  {
    var A, D := Anchors(ms), CumulativeDistances(seg);
    var last := A[|A| - 1];
    DistancesNondecreasing(seg, last, j);
    var xp, fp := Select(D, A), Select(ms, A);
    assert xp[|xp| - 1] == D[last] && fp[|fp| - 1] == ms[last];
    InterpRight(D[j], xp, fp);
  }

  /** A single anchor spreads its rounded value to every other vertex. */
  lemma TableSingleAnchor(ms: seq<real>, seg: seq<real>, j: nat)
    requires Shaped(ms, seg) && NonNegative(seg) && SamplePointsIncreasing(ms, seg)
    requires |Anchors(ms)| == 1 && j < |ms| && j != Anchors(ms)[0]
    ensures TableLookup(ms, seg).Feature? && |TableLookup(ms, seg).m| == |ms| &&
      TableLookup(ms, seg).m[j] == RoundHalfEven(ms[Anchors(ms)[0]]) as real
  {
    if j < Anchors(ms)[0] {
      TableBeforeFirst(ms, seg, j);
    } else {
      TableAfterLast(ms, seg, j);
    }
  }

  /** If every vertex is an anchor, the M-values come back unchanged. */
  lemma TableAllAnchored(ms: seq<real>, seg: seq<real>)
    requires Shaped(ms, seg) && SamplePointsIncreasing(ms, seg)
    requires |ms| > 0 && forall i :: 0 <= i < |ms| ==> ms[i] != 0.0
    ensures TableLookup(ms, seg) == Feature(ms)
  {
    assert 0 in Anchors(ms);
    forall i | 0 <= i < |ms|
      ensures TableLookup(ms, seg).m[i] == ms[i]
    {
      TableAnchorsKept(ms, seg, i);
    }
  }

  // ---------------------------------------------------------------- the per-feature step

  /** m_interpolated[zero_value_indexes] = interpolated_values, one element after the other. */
  method FancyWrite(m: array<real>, Z: seq<nat>, ys: seq<real>)
    requires |Z| == |ys| && forall k :: 0 <= k < |Z| ==> Z[k] < m.Length
    modifies m
    ensures m[..] == Scatter(old(m[..]), Z, ys)
  {
    var k := 0;
    while k < |Z|
      invariant 0 <= k <= |Z|
      invariant Scatter(m[..], Z[k..], ys[k..]) == Scatter(old(m[..]), Z, ys)
    {
      assert Z[k..][1..] == Z[k + 1..] && ys[k..][1..] == ys[k + 1..];
      m[Z[k]] := ys[k];
      k := k + 1;
    }
    assert Z[k..] == [];
  }

  /** processFeature: extract the M-values, copy them (np.copy), run the array pipeline and
      write the rounded values at the non-anchor indices. */
  method ProcessFeature(line: seq<Vertex>, seg: seq<real>) returns (r: Outcome)
    requires SegmentLengths(line, seg) && SamplePointsIncreasing(MValues(line), seg)
    ensures r == TableLookup(MValues(line), seg)
  {
    var ms := ExtractM(line);
    assert ms == MValues(line);
    var A := Anchors(ms);
    var m := new real[|ms|](i requires 0 <= i < |ms| => ms[i]);
    var D := CumulativeDistances(seg);
    var xp, fp := Select(D, A), Select(ms, A);
    if |A| == 0 {
      return Dropped;
    }
    var ys := Around(InterpAll(Delete(D, A), xp, fp));
    var Z := DeleteIndices(|ms|, A);
    assert m[..] == ms;
    FancyWrite(m, Z, ys);
    r := Feature(m[..]);
  }
}
