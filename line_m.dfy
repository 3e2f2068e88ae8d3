/** Shared vocabulary of the two M-value interpolation algorithms: vertices of a LineStringM,
    the per-feature outcome, sums and partial sums of segment lengths, the anchor indices
    (vertices whose M-value is non-zero) and the half-to-even rounding both algorithms use. */
module LineM {

  /** A vertex of a LineStringM: a planar position and its measure; an M-value of 0 means "unknown". */
  datatype Vertex = Vertex(x: real, y: real, m: real)

  /** What processFeature does with one feature: yields it with new M-values, drops it
      (the exception handler returns an empty list), or lets an exception escape. */
  datatype Outcome = Feature(m: seq<real>) | Dropped | Aborted

  function SqrDist(p: Vertex, q: Vertex): (d: real)
    ensures d >= 0.0
  {
    (p.x - q.x) * (p.x - q.x) + (p.y - q.y) * (p.y - q.y)
  }

  /** One segment length per pair of consecutive vertices. */
  predicate Shaped(ms: seq<real>, seg: seq<real>)
  {
    |seg| == if |ms| == 0 then 0 else |ms| - 1
  }

  predicate NonNegative(seg: seq<real>)
  {
    forall i :: 0 <= i < |seg| ==> seg[i] >= 0.0
  }

  /** The M-values of the line, in vertex order. */
  function MValues(line: seq<Vertex>): seq<real>
  {
    seq(|line|, i requires 0 <= i < |line| => line[i].m)
  }

  /** seg holds the Euclidean lengths sqrt(sqrDist) of the segments (i, i+1), in order: the pairs
      of itertools.combinations(range(n), 2) with j - i == 1 come out in ascending i. */
  ghost predicate SegmentLengths(line: seq<Vertex>, seg: seq<real>)
  {
    Shaped(MValues(line), seg) && NonNegative(seg) &&
    forall i :: 0 <= i < |seg| ==> seg[i] * seg[i] == SqrDist(line[i], line[i + 1])
  }

  /** The vertex iterator loop: append the M-value of every vertex. */
  method ExtractM(line: seq<Vertex>) returns (ms: seq<real>)
    ensures |ms| == |line|
    ensures forall i :: 0 <= i < |line| ==> ms[i] == line[i].m
  {
    ms := [];
    var next := 0;
    while next < |line|
      invariant 0 <= next <= |line|
      invariant |ms| == next
      invariant forall i :: 0 <= i < next ==> ms[i] == line[i].m
    {
      var vertex := line[next];
      next := next + 1;
      ms := ms + [vertex.m];
    }
  }

  // ---------------------------------------------------------------- sums

  /** Python's sum: a left fold from 0. */
  function Sum(s: seq<real>): real
  {
    if s == [] then 0.0 else Sum(s[..|s| - 1]) + s[|s| - 1]
  }

  lemma {:induction false} SumCons(x: real, t: seq<real>)
    ensures Sum([x] + t) == x + Sum(t)
  {
    if t != [] {
      assert ([x] + t)[..|t|] == [x] + t[..|t| - 1];
      SumCons(x, t[..|t| - 1]);
    }
  }

  lemma {:induction false} SumSplit(s: seq<real>, i: nat)
    requires i <= |s|
    ensures Sum(s) == Sum(s[..i]) + Sum(s[i..])
  {
    if |s| > i {
      SumSplit(s[..|s| - 1], i);
      assert s[..|s| - 1][..i] == s[..i];
      assert s[i..][..|s| - i - 1] == s[..|s| - 1][i..];
    } else {
      assert s[..i] == s;
    }
  }

  /** The total of the slice seg[i..j] is the difference of the prefix totals. */
  lemma SumSlice(seg: seq<real>, i: nat, j: nat)
    requires i <= j <= |seg|
    ensures Sum(seg[i..j]) == Sum(seg[..j]) - Sum(seg[..i])
  {
    SumSplit(seg[..j], i);
    assert seg[..j][..i] == seg[..i];
    assert seg[..j][i..] == seg[i..j];
  }

  /** Segments of one common length c: the slice seg[lo..hi] totals (hi - lo) * c. */
  lemma {:induction false} SumConstant(seg: seq<real>, lo: nat, hi: nat, c: real)
    requires lo <= hi <= |seg| && forall i :: lo <= i < hi ==> seg[i] == c
    ensures Sum(seg[lo..hi]) == (hi - lo) as real * c
    decreases hi - lo
  {
    if lo < hi {
      var last: nat := hi - 1;
      SumConstant(seg, lo, last, c);
      assert seg[lo..hi][..hi - lo - 1] == seg[lo..last];
      assert seg[lo..hi][hi - lo - 1] == seg[last];
    }
  }

  lemma {:induction false} SumNonNegative(s: seq<real>)
    requires NonNegative(s)
    ensures Sum(s) >= 0.0
  {
    if s != [] {
      SumNonNegative(s[..|s| - 1]);
    }
  }

  /** With non-negative segments, a longer prefix never has a smaller total. */
  lemma PrefixSumMonotone(s: seq<real>, i: nat, j: nat)
    requires NonNegative(s) && i <= j <= |s|
    ensures Sum(s[..i]) <= Sum(s[..j])
  {
    SumSlice(s, i, j);
    SumNonNegative(s[i..j]);
  }

  /** With non-negative segments, the part seg[i..j] of seg[i..k] is no longer than the whole. */
  lemma SliceSumBounds(seg: seq<real>, i: nat, j: nat, k: nat)
    requires NonNegative(seg) && i <= j <= k <= |seg|
    ensures 0.0 <= Sum(seg[i..j]) <= Sum(seg[i..k])
  {
    SumSlice(seg, i, j);
    SumSlice(seg, i, k);
    PrefixSumMonotone(seg, i, j);
    PrefixSumMonotone(seg, j, k);
  }

  lemma SumPrefixes(s: seq<real>)
    requires s != []
    ensures forall k :: 0 <= k < |s| ==> Sum(s[..k + 1]) == s[0] + Sum(s[1..][..k])
  {
    forall k | 0 <= k < |s|
      ensures Sum(s[..k + 1]) == s[0] + Sum(s[1..][..k])
    {
      assert s[..k + 1] == [s[0]] + s[1..][..k];
      SumCons(s[0], s[1..][..k]);
    }
  }

  /** itertools.accumulate and np.cumsum: running totals, the k-th covering s[..k+1],
      each starting from total. */
  function PartialSumsFrom(total: real, s: seq<real>): (r: seq<real>)
    ensures |r| == |s|
    ensures forall k :: 0 <= k < |s| ==> r[k] == total + Sum(s[..k + 1])
    decreases |s|
  {
    if s == [] then []
    else
      SumPrefixes(s);
      [total + s[0]] + PartialSumsFrom(total + s[0], s[1..])
  }

  function PartialSums(s: seq<real>): seq<real>
  {
    PartialSumsFrom(0.0, s)
  }

  // ---------------------------------------------------------------- anchors

  predicate Increasing(A: seq<nat>)
  {
    forall k, l :: 0 <= k < l < |A| ==> A[k] < A[l]
  }

  /** A list of anchor indices into n vertices, ascending. */
  predicate AnchorList(A: seq<nat>, n: nat)
  {
    Increasing(A) && forall k :: 0 <= k < |A| ==> A[k] < n
  }

  /** np.nonzero(vertex_m)[0] restricted to the indices from i on. */
  function AnchorsFrom(ms: seq<real>, i: nat): (A: seq<nat>)
    ensures forall k :: 0 <= k < |A| ==> i <= A[k] < |ms| && ms[A[k]] != 0.0
    ensures forall j :: i <= j < |ms| && ms[j] != 0.0 ==> j in A
    ensures Increasing(A)
    decreases |ms| - i
  {
    if i >= |ms| then []
    else if ms[i] == 0.0 then AnchorsFrom(ms, i + 1)
    else [i] + AnchorsFrom(ms, i + 1)
  }

  /** The anchor indices: every vertex with a non-zero M-value, ascending. */
  function Anchors(ms: seq<real>): (A: seq<nat>)
    ensures AnchorList(A, |ms|)
    ensures forall j :: 0 <= j < |ms| ==> (j in A <==> ms[j] != 0.0)
  {
    AnchorsFrom(ms, 0)
  }

  /** Between two consecutive anchors there is no anchor. */
  lemma NoAnchorBetween(ms: seq<real>, k: nat, j: nat)
    requires k + 1 < |Anchors(ms)| && Anchors(ms)[k] < j < Anchors(ms)[k + 1]
    ensures ms[j] == 0.0
  {
  }

  /** Before the first anchor and after the last there is no anchor. */
  lemma NoAnchorBefore(ms: seq<real>, j: nat)
    requires |Anchors(ms)| > 0 && j < Anchors(ms)[0]
    ensures ms[j] == 0.0
  {
  }

  lemma NoAnchorAfter(ms: seq<real>, j: nat)
    requires |Anchors(ms)| > 0 && Anchors(ms)[|Anchors(ms)| - 1] < j < |ms|
    ensures ms[j] == 0.0
  {
  }

  /** Every index in [A[lo], last anchor) lies in the range [A[k], A[k+1]) of some pair of
      consecutive anchors from lo on. */
  lemma {:induction false} PairCover(A: seq<nat>, j: nat, lo: nat)
    requires Increasing(A) && lo < |A| - 1 && A[lo] <= j < A[|A| - 1]
    ensures exists k :: lo <= k < |A| - 1 && A[k] <= j < A[k + 1]
    decreases |A| - lo
  {
    if j >= A[lo + 1] {
      PairCover(A, j, lo + 1);
    } else {
      assert A[lo] <= j < A[lo + 1];
    }
  }

  /** ... and of only one, so the per-pair write ranges are disjoint. */
  lemma PairsDisjoint(A: seq<nat>, k: nat, l: nat, j: nat)
    requires Increasing(A) && k < l < |A| - 1 && A[k] <= j < A[k + 1]
    ensures !(A[l] <= j < A[l + 1])
  {
    assert A[k + 1] <= A[l];
  }

  // ---------------------------------------------------------------- rounding

  /** Python's round(x, 0) and np.around(x, decimals=0): nearest integer, ties to even. */
  function RoundHalfEven(x: real): (r: int)
    ensures x - 0.5 <= r as real <= x + 0.5
    ensures r as real == x - 0.5 || r as real == x + 0.5 ==> r % 2 == 0
  {
    var f := x.Floor;
    var d := x - f as real;
    if d < 0.5 then f
    else if d > 0.5 then f + 1
    else if f % 2 == 0 then f
    else f + 1
  }

  lemma RoundMonotone(x: real, y: real)
    requires x <= y
    ensures RoundHalfEven(x) <= RoundHalfEven(y)
  {
  }

  function Min(x: real, y: real): real { if x <= y then x else y }
  function Max(x: real, y: real): real { if x <= y then y else x }

  lemma FractionInUnit(s: real, total: real)
    requires 0.0 <= s <= total && total != 0.0
    ensures 0.0 <= s / total <= 1.0
  {
    assert s / total * total == s;
  }

  lemma ProductNonNegative(x: real, y: real)
    requires x >= 0.0 && y >= 0.0
    ensures x * y >= 0.0
  {
  }

  /** A point of the linear blend from v to w stays between the two. */
  lemma BlendBetween(v: real, w: real, t: real)
    requires 0.0 <= t <= 1.0
    ensures Min(v, w) <= t * (w - v) + v <= Max(v, w)
  {
    if v <= w {
      ProductNonNegative(t, w - v);
      ProductNonNegative(1.0 - t, w - v);
      assert (1.0 - t) * (w - v) == (w - v) - t * (w - v);
    } else {
      ProductNonNegative(t, v - w);
      ProductNonNegative(1.0 - t, v - w);
      assert t * (w - v) == -(t * (v - w));
      assert (1.0 - t) * (v - w) == (v - w) - t * (v - w);
    }
  }
}
