/**
 * The 2D point type and its arithmetic (programming/src/point.rs).
 * `f32` coordinates are modelled as `real`; rounding is not modelled.
 */
module Geometry {
  import opened Wrappers

  /** `Point { pos: [x, y] }`; `Point::new(x, y)` is the datatype constructor. */
  datatype Point = Point(x: real, y: real)

  /** `clamp(x, min, max)`: the lower bound is tested first. */
  function Clamp(v: real, lo: real, hi: real): (r: real)
    ensures lo <= hi ==> lo <= r <= hi
    ensures lo <= v <= hi ==> r == v
    ensures v < lo ==> r == lo
    ensures lo <= v && hi < v ==> r == hi
  {
    if v < lo then lo else if v > hi then hi else v
  }

  function Add(a: Point, b: Point): Point {
    Point(a.x + b.x, a.y + b.y)
  }

  /** `Sub for Point`: the difference is the origin exactly when the points are equal. */
  function Sub(a: Point, b: Point): (r: Point)
    ensures r == Point(0.0, 0.0) <==> a == b
  {
    Point(a.x - b.x, a.y - b.y)
  }

  /** `Mul<f32> for Point`: 1 is the identity and 0 maps every point to the origin. */
  function Scale(a: Point, s: real): (r: Point)
    ensures s == 1.0 ==> r == a
    ensures s == 0.0 ==> r == Point(0.0, 0.0)
  {
    Point(a.x * s, a.y * s)
  }

  /** `Div<f32> for Point`; division by zero (an IEEE infinity) is excluded. Scaling undoes it. */
  function Div(a: Point, s: real): (r: Point)
    requires s != 0.0
    ensures Scale(r, s) == a
  {
    Point(a.x / s, a.y / s)
  }

  function Dot(a: Point, b: Point): real {
    a.x * b.x + a.y * b.y
  }

  lemma DotSymmetric(a: Point, b: Point)
    ensures Dot(a, b) == Dot(b, a)
  {
  }

  /** `r * r`, named so that facts about squares reach the solver as plain inequalities. */
  function Square(r: real): real {
    r * r
  }

  lemma ProductPositive(p: real, q: real, s: real)
    requires p > 0.0 && q > 0.0 && s == p * q
    ensures s > 0.0
  {
  }

  lemma ProductNonNegative(p: real, q: real, s: real)
    requires p >= 0.0 && q >= 0.0 && s == p * q
    ensures s >= 0.0
  {
  }

  lemma QuotientSelf(d: real)
    requires d != 0.0
    ensures d / d == 1.0
  {
  }

  lemma SquareSign(r: real)
    ensures Square(r) >= 0.0
    ensures r != 0.0 ==> Square(r) > 0.0
  {
    if r < 0.0 {
      ProductPositive(-r, -r, Square(r));
    } else if r > 0.0 {
      ProductPositive(r, r, Square(r));
    }
  }

  /** `p.dot(p)` is a sum of squares: non-negative, and zero only at the origin. */
  lemma DotSelf(a: Point)
    ensures Dot(a, a) >= 0.0
    ensures Dot(a, a) == 0.0 <==> a == Point(0.0, 0.0)
  {
    SquareSign(a.x);
    SquareSign(a.y);
    assert Dot(a, a) == Square(a.x) + Square(a.y);
  }

  /** The operators act componentwise, so subtraction undoes addition exactly over the reals. */
  lemma AddSubCancel(a: Point, b: Point)
    ensures Sub(Add(a, b), b) == a
    ensures Add(Sub(a, b), b) == a
  {
  }

  /** The squared length of segment a-b is non-negative, and zero only when `a == b`. */
  lemma SegmentLength(a: Point, b: Point)
    ensures Dot(Sub(b, a), Sub(b, a)) >= 0.0
    ensures Dot(Sub(b, a), Sub(b, a)) == 0.0 <==> a == b
  {
    DotSelf(Sub(b, a));
  }

  /** Division undoes scaling by a non-zero factor. */
  lemma DivScaleCancel(a: Point, s: real)
    requires s != 0.0
    ensures Div(Scale(a, s), s) == a
  {
  }

  /** Result of `project`: the squared distance to the closest point and its clamped parameter. */
  datatype Projection = Projection(distSq: real, t: real)

  /** The point of segment a-b at parameter `t`, `a + v * t` with `v = b - a`. */
  function OnSegment(a: Point, b: Point, t: real): Point {
    Add(a, Scale(Sub(b, a), t))
  }

  /**
   * `p.project(a, b)`. For `a == b` the Rust code divides 0 by 0 and returns NaN
   * for both components; that case is `None` here.
   */
  function Project(p: Point, a: Point, b: Point): (r: Option<Projection>)
    ensures r.Some? <==> a != b
    ensures r.Some? ==> 0.0 <= r.value.t <= 1.0
  {
    var v := Sub(b, a);
    var dir := Sub(p, a);
    var vv := Dot(v, v);
    SegmentLength(a, b);
    if a == b then
      None
    else
      var t := Clamp(Dot(dir, v) / vv, 0.0, 1.0);
      var q := Sub(Add(a, Scale(v, t)), p);
      Some(Projection(Dot(q, q), t))
  }

  /** `project` returns the squared distance from `p` to the segment point at its parameter. */
  lemma ProjectDistance(p: Point, a: Point, b: Point)
    requires a != b
    ensures Project(p, a, b).Some?
    ensures var r := Project(p, a, b).value;
            var q := Sub(OnSegment(a, b, r.t), p);
            r.distSq == Dot(q, q) && r.distSq >= 0.0
  {
    var r := Project(p, a, b).value;
    DotSelf(Sub(OnSegment(a, b, r.t), p));
  }

  /**
   * The projection is clamped to `a` when `p` lies behind `a` along the segment, and to `b`
   * when it lies beyond `b`.
   */
  lemma ProjectEnds(p: Point, a: Point, b: Point)
    requires a != b
    ensures Project(p, a, b).Some?
    ensures Dot(Sub(p, a), Sub(b, a)) <= 0.0 ==> Project(p, a, b).value.t == 0.0
    ensures Dot(Sub(p, a), Sub(b, a)) >= Dot(Sub(b, a), Sub(b, a)) ==> Project(p, a, b).value.t == 1.0
  {
    var v := Sub(b, a);
    SegmentLength(a, b);
    ClampedQuotient(Dot(Sub(p, a), v), Dot(v, v));
  }

  /** The clamped parameter is 0 when the projection falls before `a`, 1 when it falls past `b`. */
  lemma ClampedQuotient(x: real, d: real)
    requires d > 0.0
    ensures x <= 0.0 ==> Clamp(x / d, 0.0, 1.0) == 0.0
    ensures x >= d ==> Clamp(x / d, 0.0, 1.0) == 1.0
  {
    var q := x / d;
    assert q * d == x;
    if x <= 0.0 && q > 0.0 {
      ProductPositive(q, d, x);
    }
    if x >= d && q < 1.0 {
      assert (1.0 - q) * d == d - x;
      ProductPositive(1.0 - q, d, d - x);
    }
  }

  /** The projected point is `a` at parameter 0 and `b` at parameter 1. */
  lemma OnSegmentEnds(a: Point, b: Point)
    ensures OnSegment(a, b, 0.0) == a
    ensures OnSegment(a, b, 1.0) == b
  {
  }

  /** The squared distance from `p` to the segment point at `u`, as a quadratic in `u`. */
  lemma SegmentDistSq(p: Point, a: Point, b: Point, u: real)
    ensures var q := Sub(OnSegment(a, b, u), p);
            var v := Sub(b, a);
            var dir := Sub(p, a);
            Dot(q, q) == Dot(v, v) * u * u - 2.0 * Dot(dir, v) * u + Dot(dir, dir)
  {
    var v := Sub(b, a);
    var dir := Sub(p, a);
    var q := Sub(OnSegment(a, b, u), p);
    assert q == Point(v.x * u - dir.x, v.y * u - dir.y);
    assert (v.x * u - dir.x) * (v.x * u - dir.x) == v.x * v.x * u * u - 2.0 * dir.x * v.x * u + dir.x * dir.x;
    assert (v.y * u - dir.y) * (v.y * u - dir.y) == v.y * v.y * u * u - 2.0 * dir.y * v.y * u + dir.y * dir.y;
  }

  /** On [0, 1], the quadratic `vv*u^2 - 2*dv*u` is least at `u = clamp(dv/vv, 0, 1)`. */
  lemma ClampedMinimum(vv: real, dv: real, s: real)
    requires vv > 0.0 && 0.0 <= s <= 1.0
    ensures var t := Clamp(dv / vv, 0.0, 1.0);
            vv * t * t - 2.0 * dv * t <= vv * s * s - 2.0 * dv * s
  {
    var m := dv / vv;
    var t := Clamp(m, 0.0, 1.0);
    assert dv == vv * m;
    assert (vv * s * s - 2.0 * dv * s) - (vv * t * t - 2.0 * dv * t) == vv * ((s - t) * (s + t - 2.0 * m));
    if m < 0.0 {
      assert (s - t) * (s + t - 2.0 * m) >= 0.0;
    } else if m > 1.0 {
      assert (s - t) * (s + t - 2.0 * m) >= 0.0 by {
        assert s - t <= 0.0 && s + t - 2.0 * m < 0.0;
      }
    } else {
      assert (s - t) * (s + t - 2.0 * m) == (s - m) * (s - m);
    }
  }

  /** No point of the segment is closer to `p` than the one `project` returns. */
  lemma ProjectIsClosest(p: Point, a: Point, b: Point, s: real)
    requires a != b && 0.0 <= s <= 1.0
    ensures Project(p, a, b).Some?
    ensures var q := Sub(OnSegment(a, b, s), p);
            Project(p, a, b).value.distSq <= Dot(q, q)
  {
    var v := Sub(b, a);
    var dir := Sub(p, a);
    SegmentLength(a, b);
    ProjectDistance(p, a, b);
    var t := Project(p, a, b).value.t;
    assert t == Clamp(Dot(dir, v) / Dot(v, v), 0.0, 1.0);
    SegmentDistSq(p, a, b, t);
    SegmentDistSq(p, a, b, s);
    ClampedMinimum(Dot(v, v), Dot(dir, v), s);
  }
}
