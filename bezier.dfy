/**
 * Linear interpolation and Bezier curves (programming/pa1/src/bezier.rs).
 * The Rust code is generic over any `T: Mul<f32> + Add`; the model uses the 2D point.
 */
module Bezier {
  import opened Wrappers
  import opened Geometry

  /** The blanket `Interpolate` impl, `self * (1.0 - t) + other * t`: `a` at 0 and `b` at 1. */
  function Interpolate(a: Point, b: Point, t: real): (r: Point)
    ensures t == 0.0 ==> r == a
    ensures t == 1.0 ==> r == b
  {
    Add(Scale(a, 1.0 - t), Scale(b, t))
  }

  /** Interpolation moves from `a` along `b - a` in proportion to `t`. */
  lemma InterpolateLine(a: Point, b: Point, t: real)
    ensures Sub(Interpolate(a, b, t), a) == Scale(Sub(b, a), t)
  {
  }

  /** `p` lies in the axis-aligned box with corners `lo` and `hi`. */
  predicate InBox(p: Point, lo: Point, hi: Point) {
    lo.x <= p.x <= hi.x && lo.y <= p.y <= hi.y
  }

  /** For `t` in [0, 1] the interpolant of two values in [lo, hi] stays in [lo, hi]. */
  lemma BlendBetween(u: real, v: real, t: real, lo: real, hi: real)
    requires 0.0 <= t <= 1.0 && lo <= u <= hi && lo <= v <= hi
    ensures lo <= u * (1.0 - t) + v * t <= hi
  {
    ProductNonNegative(u - lo, 1.0 - t, (u - lo) * (1.0 - t));
    ProductNonNegative(v - lo, t, (v - lo) * t);
    ProductNonNegative(hi - u, 1.0 - t, (hi - u) * (1.0 - t));
    ProductNonNegative(hi - v, t, (hi - v) * t);
    assert u * (1.0 - t) + v * t == lo + (u - lo) * (1.0 - t) + (v - lo) * t;
    assert u * (1.0 - t) + v * t == hi - (hi - u) * (1.0 - t) - (hi - v) * t;
  }

  /** A linear interpolation with `t` in [0, 1] never leaves a box holding both ends. */
  lemma InterpolateInBox(a: Point, b: Point, t: real, lo: Point, hi: Point)
    requires 0.0 <= t <= 1.0 && InBox(a, lo, hi) && InBox(b, lo, hi)
    ensures InBox(Interpolate(a, b, t), lo, hi)
  {
    BlendBetween(a.x, b.x, t, lo.x, hi.x);
    BlendBetween(a.y, b.y, t, lo.y, hi.y);
  }

  /** `Bezier { control_points }`; `Bezier::new` stores the points as given. */
  datatype Bezier = Bezier(controlPoints: seq<Point>)

  /**
   * `de_casteljau(t, r, i)`: the degree-`r` blend of `control_points[i..=i+r]`. Every level
   * keeps its left input at `t = 0` and its right input at `t = 1`, so the result is the
   * first point read at 0 and the last at 1.
   */
  function DeCasteljau(b: Bezier, t: real, r: nat, i: nat): (p: Point)
    requires i + r < |b.controlPoints|
    ensures t == 0.0 ==> p == b.controlPoints[i]
    ensures t == 1.0 ==> p == b.controlPoints[i + r]
    decreases r
  {
    if r == 0 then
      b.controlPoints[i]
    else
      Interpolate(DeCasteljau(b, t, r - 1, i), DeCasteljau(b, t, r - 1, i + 1), t)
  }

  /** A call at `(r, i)` reads only `control_points[i..=i+r]`. */
  lemma {:induction false} DeCasteljauLocal(b: Bezier, c: Bezier, t: real, r: nat, i: nat)
    requires i + r < |b.controlPoints| && i + r < |c.controlPoints|
    requires b.controlPoints[i..i + r + 1] == c.controlPoints[i..i + r + 1]
    ensures DeCasteljau(b, t, r, i) == DeCasteljau(c, t, r, i)
  {
    if r == 0 {
      assert b.controlPoints[i] == b.controlPoints[i..i + 1][0];
    } else {
      assert b.controlPoints[i..i + r] == b.controlPoints[i..i + r + 1][..r];
      assert c.controlPoints[i..i + r] == c.controlPoints[i..i + r + 1][..r];
      assert b.controlPoints[i + 1..i + r + 1] == b.controlPoints[i..i + r + 1][1..];
      assert c.controlPoints[i + 1..i + r + 1] == c.controlPoints[i..i + r + 1][1..];
      DeCasteljauLocal(b, c, t, r - 1, i);
      DeCasteljauLocal(b, c, t, r - 1, i + 1);
    }
  }

  /** For `t` in [0, 1] the result stays inside any box holding the points it reads. */
  lemma {:induction false} DeCasteljauInBox(b: Bezier, t: real, r: nat, i: nat, lo: Point, hi: Point)
    requires i + r < |b.controlPoints| && 0.0 <= t <= 1.0
    requires forall k :: i <= k <= i + r ==> InBox(b.controlPoints[k], lo, hi)
    ensures InBox(DeCasteljau(b, t, r, i), lo, hi)
  {
    if r > 0 {
      DeCasteljauInBox(b, t, r - 1, i, lo, hi);
      DeCasteljauInBox(b, t, r - 1, i + 1, lo, hi);
      InterpolateInBox(DeCasteljau(b, t, r - 1, i), DeCasteljau(b, t, r - 1, i + 1), t, lo, hi);
    }
  }

  /** The whole-polygon form of `DeCasteljauInBox`, for every box at once. */
  lemma DeCasteljauInHull(b: Bezier, t: real, n: nat)
    requires n + 1 == |b.controlPoints| && 0.0 <= t <= 1.0
    ensures forall lo, hi :: (forall k :: 0 <= k < |b.controlPoints| ==> InBox(b.controlPoints[k], lo, hi)) ==>
              InBox(DeCasteljau(b, t, n, 0), lo, hi)
  {
    forall lo, hi | (forall k :: 0 <= k < |b.controlPoints| ==> InBox(b.controlPoints[k], lo, hi))
      ensures InBox(DeCasteljau(b, t, n, 0), lo, hi)
    {
      DeCasteljauInBox(b, t, n, 0, lo, hi);
    }
  }

  /**
   * `point(t)`: de Casteljau over the whole control polygon. The Rust code asserts
   * `0 <= t <= 1` and computes `len() - 1`, which underflows for an empty polygon.
   */
  function PointAt(b: Bezier, t: real): (p: Point)
    requires 0.0 <= t <= 1.0 && |b.controlPoints| >= 1
    ensures t == 0.0 ==> p == b.controlPoints[0]
    ensures t == 1.0 ==> p == b.controlPoints[|b.controlPoints| - 1]
    ensures |b.controlPoints| == 1 ==> p == b.controlPoints[0]
    ensures forall lo, hi :: (forall k :: 0 <= k < |b.controlPoints| ==> InBox(b.controlPoints[k], lo, hi)) ==> InBox(p, lo, hi)
  {
    var n := |b.controlPoints| - 1;
    DeCasteljauInHull(b, t, n);
    DeCasteljau(b, t, n, 0)
  }

  /** `f32::MAX`, the distance the nearest-segment fold starts from. */
  const F32_MAX: real := 340282346638528859811704183484516925440.0

  /**
   * The `fold` of `insert_point` over the per-segment distances: it keeps the first
   * segment whose distance is strictly below everything seen so far.
   */
  function NearestSegment(dists: seq<real>): (r: (nat, real))
    ensures r.1 <= F32_MAX
    ensures r.1 < F32_MAX ==> r.0 < |dists| && dists[r.0] == r.1
    ensures r.1 == F32_MAX ==> r.0 == 0
    ensures forall k :: 0 <= k < |dists| ==> r.1 <= dists[k]
    ensures forall k :: 0 <= k < r.0 ==> r.1 < dists[k]
    decreases |dists|
  {
    if |dists| == 0 then
      (0, F32_MAX)
    else
      var last := |dists| - 1;
      var acc := NearestSegment(dists[..last]);
      assert forall k :: 0 <= k < last ==> dists[..last][k] == dists[k];
      if dists[last] < acc.1 then (last, dists[last]) else acc
  }

  /** `windows(2)`: the distance of the new point from every segment of the control polygon. */
  function SegmentDistances(cps: seq<Point>, project: (Point, Point) -> real): (ds: seq<real>)
    ensures |ds| == if |cps| < 2 then 0 else |cps| - 1
    ensures forall k :: 0 <= k < |ds| ==> ds[k] == project(cps[k], cps[k + 1])
  {
    if |cps| < 2 then [] else seq(|cps| - 1, k requires 0 <= k < |cps| - 1 => project(cps[k], cps[k + 1]))
  }

  /**
   * `insert_point(&self, p)`: returns early for a one-point curve; otherwise computes the
   * nearest segment `(index, distance)`, which the Rust code only prints. `project` is
   * `p.project(a, b)` of the point type's `ProjectToSegment` impl. The curve is a value
   * and is returned by no branch, so it is never changed.
   */
  function InsertPoint(b: Bezier, project: (Point, Point) -> real): (r: Option<(nat, real)>)
    ensures r.None? <==> |b.controlPoints| == 1
    ensures r.Some? && |b.controlPoints| < 2 ==> r.value == (0, F32_MAX)
    ensures r.Some? && r.value.1 < F32_MAX ==>
              r.value.0 + 1 < |b.controlPoints| &&
              project(b.controlPoints[r.value.0], b.controlPoints[r.value.0 + 1]) == r.value.1
    ensures r.Some? ==> forall k :: 0 <= k < |b.controlPoints| - 1 ==>
              r.value.1 <= project(b.controlPoints[k], b.controlPoints[k + 1])
    ensures r.Some? ==> forall k :: 0 <= k < r.value.0 && k + 1 < |b.controlPoints| ==>
              r.value.1 < project(b.controlPoints[k], b.controlPoints[k + 1])
  {
    if |b.controlPoints| == 1 then
      None
    else
      Some(NearestSegment(SegmentDistances(b.controlPoints, project)))
  }
}
