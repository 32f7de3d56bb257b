/** Arc length of the curve (`curve_length`) and the equal-spacing sampler
    (`make_ts`) of make_backdrop.py. */
module Sampling {
  import opened Errors
  import opened Geometry

  /** SEGMENTS: how many chords `curve_length` adds up. */
  const Segments := 50

  /** The distance function `dist`; square roots are not available over the
      reals, so it is a parameter, pinned down by the predicates below. */
  type Metric = (Point2, Point2) -> real

  ghost predicate NonNegative(dist: Metric)
  {
    forall p, q :: dist(p, q) >= 0.0
  }

  function SqDist(p: Point2, q: Point2): real
  {
    (q.x - p.x) * (q.x - p.x) + (q.y - p.y) * (q.y - p.y)
  }

  /** `dist` is the Euclidean distance: the non-negative square root of
      dx*dx + dy*dy. */
  ghost predicate IsEuclidean(dist: Metric)
  {
    forall p, q :: dist(p, q) >= 0.0 && dist(p, q) * dist(p, q) == SqDist(p, q)
  }

  function Abs(x: real): real
  {
    if x < 0.0 then -x else x
  }

  function Pow2(n: nat): real
  {
    if n == 0 then 1.0 else 2.0 * Pow2(n - 1)
  }

  /** The sum of the first k of the chords `curve_length` measures, chord i
      joining curve(i / Segments) and curve((i + 1) / Segments). */
  function Chords(curve: real -> Point2, dist: Metric, k: nat): real
  {
    if k == 0 then 0.0
    else Chords(curve, dist, k - 1)
         + dist(curve((k - 1) as real / Segments as real), curve(k as real / Segments as real))
  }

  lemma {:induction false} ChordsNonNegative(curve: real -> Point2, dist: Metric, k: nat)
    requires NonNegative(dist)
    ensures Chords(curve, dist, k) >= 0.0
  {
    if k > 0 {
      ChordsNonNegative(curve, dist, k - 1);
    }
  }

  /** `curve_length`: the polyline estimate of the curve's length over [0, 1]. */
  method CurveLength(curve: real -> Point2, dist: Metric) returns (total: real)
    requires NonNegative(dist)
    ensures total == Chords(curve, dist, Segments)
    ensures total >= 0.0
  {
    total := 0.0;
    for i := 0 to Segments
      invariant total == Chords(curve, dist, i)
    {
      var t1 := i as real / Segments as real;
      var t2 := (i + 1) as real / Segments as real;
      var pt1, pt2 := curve(t1), curve(t2);
      total := total + dist(pt1, pt2);
    }
    ChordsNonNegative(curve, dist, Segments);
  }

  /** A non-negative number is determined by its square. */
  lemma SquareRootUnique(a: real, b: real)
    requires a >= 0.0 && b >= 0.0 && a * a == b * b
    ensures a == b
  {
    assert (a - b) * (a + b) == 0.0;
    if a + b == 0.0 {
      assert a == 0.0;
    }
  }

  lemma LerpSqDist(p: Point2, q: Point2, a: real, b: real)
    ensures SqDist(Lerp(p, q, a), Lerp(p, q, b)) == (b - a) * (b - a) * SqDist(p, q)
  {
    var dx, dy := q.x - p.x, q.y - p.y;
    assert Lerp(p, q, b).x - Lerp(p, q, a).x == (b - a) * dx;
    assert Lerp(p, q, b).y - Lerp(p, q, a).y == (b - a) * dy;
  }

  /** When the control point lies halfway between the ends, the curve is a
      straight segment: each chord is 1 / Segments of the distance between
      the ends, and the whole estimate (k == Segments) is exactly that
      distance. */
  lemma {:induction false} StraightChords(p1: Point2, p3: Point2, dist: Metric, k: nat)
    requires IsEuclidean(dist)
    ensures Chords(Bezier(p1, Midpoint(p1, p3), p3), dist, k)
         == k as real / Segments as real * dist(p1, p3)
  {
    if k > 0 {
      var curve := Bezier(p1, Midpoint(p1, p3), p3);
      StraightChords(p1, p3, dist, k - 1);
      var a, b := (k - 1) as real / Segments as real, k as real / Segments as real;
      StraightBezier(p1, p3, a);
      StraightBezier(p1, p3, b);
      LerpSqDist(p1, p3, a, b);
      var d, c := dist(p1, p3), dist(curve(a), curve(b));
      assert b - a == 1.0 / Segments as real;
      assert c * c == (d / Segments as real) * (d / Segments as real);
      SquareRootUnique(c, d / Segments as real);
    }
  }

  /** The parameter the sampler continues from: 0 before the first sample. */
  function LastT(ts: seq<real>): real
  {
    if ts == [] then 0.0 else ts[|ts| - 1]
  }

  /** The point the sampler measures step k from: (0, 0) before the first
      sample, then the point of sample k - 1. */
  function PointBefore(curve: real -> Point2, ts: seq<real>, k: nat): Point2
    requires k <= |ts|
  {
    if k == 0 then Point2(0.0, 0.0) else curve(ts[k - 1])
  }

  /** The running total of `make_ts` after its first k samples: the chord
      lengths from (0, 0) through the points of ts[0], ..., ts[k - 1]. */
  function PathLength(curve: real -> Point2, dist: Metric, ts: seq<real>, k: nat): real
    requires k <= |ts|
  {
    if k == 0 then 0.0
    else PathLength(curve, dist, ts, k - 1) + dist(curve(ts[k - 1]), PointBefore(curve, ts, k - 1))
  }

  /** Later samples do not change the running total of earlier ones. */
  lemma {:induction false} PathLengthPrefix(curve: real -> Point2, dist: Metric, ts: seq<real>, more: seq<real>, k: nat)
    requires k <= |ts|
    ensures PathLength(curve, dist, ts + more, k) == PathLength(curve, dist, ts, k)
  {
    if k > 0 {
      PathLengthPrefix(curve, dist, ts, more, k - 1);
      assert (ts + more)[k - 1] == ts[k - 1];
      if k > 1 {
        assert (ts + more)[k - 2] == ts[k - 2];
      }
    }
  }

  /** Every sample lies strictly inside the window (previous, previous + 0.1)
      the sampler searches, the first one inside (0, 0.1). */
  predicate Advances(ts: seq<real>)
  {
    && (|ts| > 0 ==> 0.0 < ts[0] < 0.1)
    && forall k :: 0 < k < |ts| ==> ts[k - 1] < ts[k] < ts[k - 1] + 0.1
  }

  /** `want_len`: the running total sample i aims for, i / n of the length. */
  function WantLen(length: real, n: int, i: int): real
    requires n != 0
  {
    (i as real * length) / n as real
  }

  /** `tolerance`: how far the running total may end from its target. */
  function Tolerance(n: int): real
    requires n != 0
  {
    0.1 / n as real
  }

  /** Sample k (counting from 1) ends the running total within the
      tolerance of its target. */
  ghost predicate OnTarget(curve: real -> Point2, dist: Metric, length: real, n: int, ts: seq<real>, k: nat)
    requires n != 0 && k <= |ts|
  {
    Abs(PathLength(curve, dist, ts, k) - WantLen(length, n, k)) <= Tolerance(n)
  }

  /** Every sample ends the running total within the tolerance of its target. */
  ghost predicate WithinTolerance(curve: real -> Point2, dist: Metric, length: real, n: int, ts: seq<real>)
    requires n != 0
  {
    forall k :: 1 <= k <= |ts| ==> OnTarget(curve, dist, length, n, ts, k)
  }

  /** The samples of `make_ts` increase strictly and stay positive. */
  lemma {:induction false} AdvancesIncreasing(ts: seq<real>, i: nat, j: nat)
    requires Advances(ts)
    requires i < j < |ts|
    ensures 0.0 < ts[i] < ts[j]
    decreases j
  {
    if i + 1 < j {
      AdvancesIncreasing(ts, i, j - 1);
    } else if i > 0 {
      AdvancesIncreasing(ts, i - 1, i);
    }
  }

  /** The bracket search inside `make_ts`: bisect [lastT, lastT + 0.1] for the
      parameter whose point, measured from lastPt, brings the running total
      within tolerance of wantLen. Returns the parameter, its point and the
      step from lastPt. The tolerance is below the initial difference 1, so
      the loop runs at least once and always defines its result. */
  method Bisect(curve: real -> Point2, dist: Metric, total: real, lastT: real, lastPt: Point2,
                wantLen: real, tolerance: real, fuel: nat)
    returns (r: Result<(real, Point2, real)>)
    requires tolerance < 1.0
    ensures r.Err? ==> r.fault == Unconverged
    ensures r.Ok? ==> lastT < r.value.0 < lastT + 0.1
    ensures r.Ok? ==> r.value.1 == curve(r.value.0) && r.value.2 == dist(r.value.1, lastPt)
    ensures r.Ok? ==> Abs(total + r.value.2 - wantLen) <= tolerance
  {
    var minT, maxT := lastT, lastT + 0.1;
    var lastDiff := 1.0;
    var t, pt, step := lastT, lastPt, 0.0;
    var passes: nat := 0;
    while Abs(lastDiff) > tolerance
      invariant passes <= fuel
      invariant lastT <= minT < maxT <= lastT + 0.1
      invariant (maxT - minT) * Pow2(passes) == 0.1
      invariant passes == 0 ==> lastDiff == 1.0
      invariant passes > 0 ==> lastT < t < lastT + 0.1 && (t == minT || t == maxT)
      invariant passes > 0 ==> pt == curve(t) && step == dist(pt, lastPt)
      invariant passes > 0 ==> lastDiff == total + step - wantLen
      invariant minT == lastT || total + dist(curve(minT), lastPt) - wantLen <= 0.0
      invariant maxT == lastT + 0.1 || total + dist(curve(maxT), lastPt) - wantLen > 0.0
      decreases fuel - passes
    {
      if passes == fuel {
        return Err(Unconverged);
      }
      ghost var width := maxT - minT;
      t := (minT + maxT) / 2.0;
      pt := curve(t);
      step := dist(pt, lastPt);
      lastDiff := (total + step) - wantLen;
      if lastDiff > 0.0 {
        maxT := t;
      } else {
        minT := t;
      }
      assert maxT - minT == width / 2.0;
      passes := passes + 1;
    }
    return Ok((t, pt, step));
  }

  lemma AppendAdvances(ts: seq<real>, t: real)
    requires Advances(ts)
    requires LastT(ts) < t < LastT(ts) + 0.1
    ensures Advances(ts + [t])
  {
    var ts' := ts + [t];
    forall k | 0 < k < |ts'| ensures ts'[k - 1] < ts'[k] < ts'[k - 1] + 0.1 {
      if k < |ts| {
        assert ts'[k - 1] == ts[k - 1] && ts'[k] == ts[k];
      }
    }
  }

  /** Appending sample t keeps the earlier running totals and adds the step
      to t's point. */
  lemma PathLengthAppend(curve: real -> Point2, dist: Metric, ts: seq<real>, t: real, k: nat)
    requires 1 <= k <= |ts| + 1
    ensures PathLength(curve, dist, ts + [t], k)
         == if k <= |ts| then PathLength(curve, dist, ts, k)
            else PathLength(curve, dist, ts, |ts|) + dist(curve(t), PointBefore(curve, ts, |ts|))
  {
    if k <= |ts| {
      PathLengthPrefix(curve, dist, ts, [t], k);
    } else {
      PathLengthPrefix(curve, dist, ts, [t], |ts|);
      assert |ts| > 0 ==> (ts + [t])[|ts| - 1] == ts[|ts| - 1];
    }
  }

  /** Appending a sample that meets its target keeps the whole sequence
      within tolerance. */
  lemma AppendWithinTolerance(curve: real -> Point2, dist: Metric, length: real, n: int,
                              ts: seq<real>, t: real)
    requires n != 0
    requires WithinTolerance(curve, dist, length, n, ts)
    requires Abs(PathLength(curve, dist, ts, |ts|) + dist(curve(t), PointBefore(curve, ts, |ts|))
                 - WantLen(length, n, |ts| + 1)) <= Tolerance(n)
    ensures WithinTolerance(curve, dist, length, n, ts + [t])
  {
    forall k | 1 <= k <= |ts| + 1
      ensures OnTarget(curve, dist, length, n, ts + [t], k)
    {
      PathLengthAppend(curve, dist, ts, t, k);
      if k <= |ts| {
        assert OnTarget(curve, dist, length, n, ts, k);
      }
    }
  }

  /** `make_ts`: the n - 1 parameters that split the curve into n pieces of
      equal chord length, each found by bisection in the window
      [last_t, last_t + 0.1]. The bisection need not terminate; each one may
      take at most `fuel` passes, and one that would take more is reported as
      Unconverged. A zero n fails on computing the tolerance 0.1 / n. */
  method MakeTs(curve: real -> Point2, dist: Metric, length: real, npoints: int, fuel: nat)
    returns (r: Result<seq<real>>)
    ensures r == Err(ZeroDivision) <==> npoints == 0
    ensures r.Err? ==> r.fault == ZeroDivision || r.fault == Unconverged
    ensures r == Err(Unconverged) ==> npoints > 1
    ensures r.Ok? ==> |r.value| == (if npoints > 1 then npoints - 1 else 0)
    ensures r.Ok? ==> Advances(r.value)
    ensures r.Ok? && npoints != 0 ==> WithinTolerance(curve, dist, length, npoints, r.value)
  {
    if npoints == 0 {
      return Err(ZeroDivision);
    }
    var lastT := 0.0;
    var total := 0.0;
    var lastPt := Point2(0.0, 0.0);
    var tolerance := Tolerance(npoints);
    var ts: seq<real> := [];
    var i := 1;
    while i < npoints
      invariant 1 <= i && (npoints > 1 ==> i <= npoints) && (npoints <= 1 ==> i == 1)
      invariant |ts| == i - 1
      invariant Advances(ts)
      invariant lastT == LastT(ts) && lastPt == PointBefore(curve, ts, |ts|)
      invariant total == PathLength(curve, dist, ts, |ts|)
      invariant WithinTolerance(curve, dist, length, npoints, ts)
    {
      assert tolerance < 1.0 by {
        assert tolerance * npoints as real == 0.1;
      }
      var wantLen := WantLen(length, npoints, i);
      var found := Bisect(curve, dist, total, lastT, lastPt, wantLen, tolerance, fuel);
      if found.Err? {
        return Err(Unconverged);
      }
      var (t, pt, step) := found.value;
      AppendAdvances(ts, t);
      AppendWithinTolerance(curve, dist, length, npoints, ts, t);
      PathLengthAppend(curve, dist, ts, t, |ts| + 1);
      ts := ts + [t];
      total := total + step;
      lastT := t;
      lastPt := pt;
      i := i + 1;
    }
    return Ok(ts);
  }
}
