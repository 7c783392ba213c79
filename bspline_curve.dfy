/**
 * B-spline curves (programming/src/bspline.rs): construction, the knot domain, the
 * binary search that locates the knot span of `t`, and the iterative de Boor algorithm.
 *
 * Notation: `p` is the degree, `n = |knots|` and `s` the knot span, chosen so that
 * `knots[s - 1] <= t <= knots[s]`. De Boor's node at level `k` and position `j` blends the
 * control points `controlPoints[j + s - p - 1 ..= j + k + s - p - 1]`.
 */
module BSplineCurves {
  import opened Wrappers
  import opened Geometry
  import opened Knots
  import Bezier

  /** `BSpline { degree, control_points, knots }`. */
  datatype BSpline = BSpline(degree: nat, controlPoints: seq<Point>, knots: seq<real>)

  /** The counts `BSpline::new` demands, without the ordering it establishes. */
  predicate Shaped(c: BSpline) {
    |c.controlPoints| > c.degree && |c.knots| == |c.controlPoints| + c.degree + 1
  }

  /** What every curve built by `BSpline::new` satisfies. */
  predicate Valid(c: BSpline) {
    Shaped(c) && Sorted(c.knots)
  }

  /** The two panics of `BSpline::new`. */
  datatype CurveError = TooFewControlPoints | InvalidKnotCount(got: nat, expected: nat)

  /**
   * `BSpline::new`: rejects too few control points first, then a knot count other than
   * `|controlPoints| + degree + 1`; otherwise sorts the knots.
   */
  function New(degree: nat, controlPoints: seq<Point>, knots: seq<real>): (r: Result<BSpline, CurveError>)
    ensures r.Ok? <==> degree < |controlPoints| && |knots| == |controlPoints| + degree + 1
    ensures |controlPoints| <= degree ==> r == Err(TooFewControlPoints)
    ensures degree < |controlPoints| && |knots| != |controlPoints| + degree + 1 ==>
              r == Err(InvalidKnotCount(|knots|, |controlPoints| + degree + 1))
    ensures r.Ok? ==> Valid(r.value) && r.value.degree == degree && r.value.controlPoints == controlPoints
    ensures r.Ok? ==> multiset(r.value.knots) == multiset(knots)
    ensures r.Ok? && Sorted(knots) ==> r.value.knots == knots
  {
    if |controlPoints| <= degree then
      Err(TooFewControlPoints)
    else if |knots| != |controlPoints| + degree + 1 then
      Err(InvalidKnotCount(|knots|, |controlPoints| + degree + 1))
    else
      SortKnotsSorted(knots);
      Ok(BSpline(degree, controlPoints, SortKnots(knots)))
  }

  /** `t` lies in `knot_domain()` of a valid curve of this degree over these knots. */
  predicate InDomain(degree: nat, knots: seq<real>, t: real) {
    2 * degree + 2 <= |knots| && Sorted(knots) && knots[degree] <= t <= knots[|knots| - 1 - degree]
  }

  /** `knot_domain()`: the parameter range the curve is defined over. */
  function KnotDomain(c: BSpline): (d: (real, real))
    requires Shaped(c)
    ensures Valid(c) ==> d.0 <= d.1
    ensures Valid(c) ==> forall t :: InDomain(c.degree, c.knots, t) <==> d.0 <= t <= d.1
  {
    (c.knots[c.degree], c.knots[|c.knots| - 1 - c.degree])
  }

  /** `upper_bounds`, specified: the index of the first element greater than `value`. */
  function FirstGreater(data: seq<real>, value: real): (r: Option<nat>)
    ensures r.Some? ==> r.value < |data|
  {
    FirstGreaterFrom(data, value, 0)
  }

  /** The first index from `i` on whose element is greater than `value`. */
  function FirstGreaterFrom(data: seq<real>, value: real, i: nat): (r: Option<nat>)
    requires i <= |data|
    ensures r.Some? ==> i <= r.value < |data|
    decreases |data| - i
  {
    if i == |data| then None
    else if value < data[i] then Some(i)
    else FirstGreaterFrom(data, value, i + 1)
  }

  /** The search from `i` finds an element above `value` with none before it from `i` on, or reports that there is none. */
  lemma {:induction false} FirstGreaterFromIsFirst(data: seq<real>, value: real, i: nat)
    requires i <= |data|
    ensures FirstGreaterFrom(data, value, i).None? <==> forall k :: i <= k < |data| ==> data[k] <= value
    ensures FirstGreaterFrom(data, value, i).Some? ==>
              value < data[FirstGreaterFrom(data, value, i).value] &&
              forall k :: i <= k < FirstGreaterFrom(data, value, i).value ==> data[k] <= value
    decreases |data| - i
  {
    if i < |data| && data[i] <= value {
      FirstGreaterFromIsFirst(data, value, i + 1);
    }
  }

  /** `FirstGreater` finds an element above `value` with none before it, or reports that there is none. */
  lemma FirstGreaterIsFirst(data: seq<real>, value: real)
    ensures FirstGreater(data, value).None? <==> forall k :: 0 <= k < |data| ==> data[k] <= value
    ensures FirstGreater(data, value).Some? ==> value < data[FirstGreater(data, value).value]
    ensures FirstGreater(data, value).Some? ==>
              forall k :: 0 <= k < FirstGreater(data, value).value ==> data[k] <= value
  {
    FirstGreaterFromIsFirst(data, value, 0);
  }

  /** The first greater element is the one after the prefix of elements not above `value`. */
  lemma FirstGreaterAt(data: seq<real>, value: real, i: nat)
    requires i <= |data| && forall k :: 0 <= k < i ==> data[k] <= value
    requires forall k :: i <= k < |data| ==> value < data[k]
    ensures FirstGreater(data, value) == if i == |data| then None else Some(i)
  {
    var r := FirstGreater(data, value);
    FirstGreaterIsFirst(data, value);
    if i < |data| {
      assert value < data[i];
      assert r.Some?;
      assert !(r.value < i);
    }
  }

  /** `upper_bounds(data, value)`: binary search over a sorted slice. */
  method UpperBounds(data: seq<real>, value: real) returns (r: Option<nat>)
    requires Sorted(data)
    ensures r == FirstGreater(data, value)
  {
    var first: nat := 0;
    var count: int := |data|;
    while count > 0
      invariant 0 <= count && first + count <= |data|
      invariant forall k :: 0 <= k < first ==> data[k] <= value
      invariant forall k :: first + count <= k < |data| ==> value < data[k]
      decreases count
    {
      var step := count / 2;
      var it := first + step;
      if !(value < data[it]) {
        first := it + 1;
        count := count - (step + 1);
      } else {
        count := step;
      }
    }
    FirstGreaterAt(data, value, first);
    if first == |data| {
      r := None;
    } else {
      r := Some(first);
    }
  }

  /**
   * The `match` in `point`: the span index as the Rust code derives it from `upper_bounds`.
   * The first greater index, read as `n` when there is none, is capped at the last span
   * `n - degree - 1`; only an index 0 is moved up, to `degree`. On a knot vector long enough
   * for one span, an index past the first `degree + 1` knots lands on a valid span, so every
   * knot de Boor reads is in range.
   */
  function SpanFromUpperBound(degree: nat, n: nat, ub: Option<nat>): (s: nat)
    requires degree + 1 <= n
    ensures s <= Max(degree, n - degree - 1)
    ensures 2 * degree + 2 <= n && (ub.None? || ub.value >= degree + 1) ==>
              degree + 1 <= s <= n - degree - 1
    ensures ub != Some(0) ==> s == Min(if ub.Some? then ub.value else n, n - degree - 1)
    ensures ub == Some(0) ==> s == degree
  {
    match ub
    case Some(x) =>
      if x == 0 then degree
      else if x >= n - degree - 1 then n - degree - 1
      else x
    case None => n - degree - 1
  }

  /** The span `point` hands to `de_boor_iterative`, as written. */
  function SpanAsWritten(degree: nat, knots: seq<real>, t: real): (s: nat)
    requires InDomain(degree, knots, t)
    ensures degree + 1 <= s <= |knots| - degree - 1
  {
    FirstGreaterIsFirst(knots, t);
    SpanFromUpperBound(degree, |knots|, FirstGreater(knots, t))
  }

  /** The span as written brackets `t`, strictly on the right except at the domain's right end. */
  lemma SpanAsWrittenBrackets(degree: nat, knots: seq<real>, t: real)
    requires InDomain(degree, knots, t)
    ensures knots[SpanAsWritten(degree, knots, t) - 1] <= t <= knots[SpanAsWritten(degree, knots, t)]
    ensures SpanAsWritten(degree, knots, t) < |knots| - degree - 1 ==> t < knots[SpanAsWritten(degree, knots, t)]
  {
    FirstGreaterIsFirst(knots, t);
  }

  /**
   * The correction to the span: for a positive degree, moves left past zero-width spans
   * `knots[s - 1] == knots[s]` while `s > degree + 1`.
   */
  function StepLeft(degree: nat, knots: seq<real>, s: nat): (r: nat)
    requires degree + 1 <= s < |knots|
    ensures degree + 1 <= r <= s
    ensures Sorted(knots) ==> knots[r] == knots[s]
    ensures degree > 0 && knots[r - 1] == knots[r] ==> r == degree + 1
    decreases s
  {
    if degree > 0 && s > degree + 1 && knots[s - 1] == knots[s] then StepLeft(degree, knots, s - 1) else s
  }

  /** The span the corrected `point` evaluates. */
  function Span(degree: nat, knots: seq<real>, t: real): (s: nat)
    requires InDomain(degree, knots, t)
    ensures degree + 1 <= s <= |knots| - degree - 1
  {
    StepLeft(degree, knots, SpanAsWritten(degree, knots, t))
  }

  /**
   * The evaluated span brackets `t`, and is a non-empty interval whenever the domain is more
   * than a single point.
   */
  lemma SpanBrackets(degree: nat, knots: seq<real>, t: real)
    requires InDomain(degree, knots, t)
    ensures knots[Span(degree, knots, t) - 1] <= t <= knots[Span(degree, knots, t)]
    ensures degree > 0 && knots[degree] < knots[|knots| - degree - 1] ==>
              knots[Span(degree, knots, t) - 1] < knots[Span(degree, knots, t)]
  {
    var s0 := SpanAsWritten(degree, knots, t);
    SpanAsWrittenBrackets(degree, knots, t);
    StepLeftNonDegenerate(degree, knots, t, s0);
  }

  /** Stepping left from the span as written ends on a non-empty span unless the domain is a point. */
  lemma StepLeftNonDegenerate(degree: nat, knots: seq<real>, t: real, s0: nat)
    requires InDomain(degree, knots, t) && s0 == SpanAsWritten(degree, knots, t)
    ensures degree > 0 && knots[degree] < knots[|knots| - degree - 1] ==>
              knots[StepLeft(degree, knots, s0) - 1] < knots[StepLeft(degree, knots, s0)]
  {
    SpanAsWrittenBrackets(degree, knots, t);
  }

  /** The denominator of `alpha` at level `k`, position `j`: `knots[i + p - k] - knots[i - 1]`. */
  function Denominator(degree: nat, knots: seq<real>, s: nat, k: nat, j: nat): real
    requires degree + 1 <= s <= |knots| - degree - 1 && 1 <= k <= degree && j <= degree - k
  {
    knots[j + s] - knots[j + k + s - degree - 1]
  }

  /** `alpha` is `0.0 / 0.0`, the NaN that `debug_assert!(!alpha.is_nan())` rejects. */
  predicate AlphaNaN(degree: nat, knots: seq<real>, t: real, s: nat, k: nat, j: nat)
    requires degree + 1 <= s <= |knots| - degree - 1 && 1 <= k <= degree && j <= degree - k
  {
    Denominator(degree, knots, s, k, j) == 0.0 && t - knots[j + k + s - degree - 1] == 0.0
  }

  predicate NonZeroDenominators(degree: nat, knots: seq<real>, s: nat)
    requires degree + 1 <= s <= |knots| - degree - 1
  {
    forall k: nat, j: nat | 1 <= k <= degree && j <= degree - k :: Denominator(degree, knots, s, k, j) != 0.0
  }

  /**
   * What `point` demands of `t`: the domain, and no NaN `alpha` on the evaluated span,
   * which (`EvaluableIffSpanNonEmpty`, `EvaluableIffNoNaN`) holds exactly when the domain
   * is more than a single point.
   */
  predicate Evaluable(degree: nat, knots: seq<real>, t: real) {
    InDomain(degree, knots, t) && (degree == 0 || knots[degree] < knots[|knots| - degree - 1])
  }

  /** `t` is evaluable exactly when the span `point` evaluates is non-empty (or the degree is 0). */
  lemma EvaluableIffSpanNonEmpty(degree: nat, knots: seq<real>, t: real)
    requires InDomain(degree, knots, t)
    ensures Evaluable(degree, knots, t) <==>
              degree == 0 || knots[Span(degree, knots, t) - 1] < knots[Span(degree, knots, t)]
  {
    var s := Span(degree, knots, t);
    SpanBrackets(degree, knots, t);
    if degree > 0 && knots[s - 1] < knots[s] {
      assert knots[degree] <= knots[s - 1];
      assert knots[s] <= knots[|knots| - degree - 1];
    }
  }

  /**
   * On the evaluated span every denominator spans `[knots[s - 1], knots[s]]`, so no `alpha`
   * is NaN exactly when that interval is non-empty (or there are no alphas).
   */
  lemma EvaluableIffNoNaN(degree: nat, knots: seq<real>, t: real)
    requires InDomain(degree, knots, t)
    ensures Evaluable(degree, knots, t) <==>
              forall k: nat, j: nat | 1 <= k <= degree && j <= degree - k ::
                !AlphaNaN(degree, knots, t, Span(degree, knots, t), k, j)
    ensures Evaluable(degree, knots, t) ==> NonZeroDenominators(degree, knots, Span(degree, knots, t))
  {
    var s := Span(degree, knots, t);
    EvaluableIffSpanNonEmpty(degree, knots, t);
    if Evaluable(degree, knots, t) {
      forall k: nat, j: nat | 1 <= k <= degree && j <= degree - k
        ensures Denominator(degree, knots, s, k, j) != 0.0
      {
        assert knots[j + k + s - degree - 1] <= knots[s - 1];
        assert knots[s] <= knots[j + s];
      }
    } else {
      assert !AlphaNaN(degree, knots, t, s, degree, 0) ==> false;
    }
  }

  /** `alpha` at level `k`, position `j`. */
  function Alpha(degree: nat, knots: seq<real>, t: real, s: nat, k: nat, j: nat): real
    requires degree + 1 <= s <= |knots| - degree - 1
    requires 1 <= k <= degree && j <= degree - k
    requires Denominator(degree, knots, s, k, j) != 0.0
  {
    (t - knots[j + k + s - degree - 1]) / Denominator(degree, knots, s, k, j)
  }

  lemma QuotientInUnit(a: real, b: real)
    requires 0.0 <= a <= b && 0.0 < b
    ensures 0.0 <= a / b <= 1.0
  {
    assert (a / b) * b == a;
  }

  /** With `t` inside its span, every `alpha` is a convex weight. */
  lemma AlphaInUnit(c: BSpline, t: real, s: nat, k: nat, j: nat)
    requires Valid(c) && c.degree + 1 <= s <= |c.knots| - c.degree - 1
    requires 1 <= k <= c.degree && j <= c.degree - k
    requires Denominator(c.degree, c.knots, s, k, j) != 0.0
    requires c.knots[s - 1] <= t <= c.knots[s]
    ensures 0.0 <= Alpha(c.degree, c.knots, t, s, k, j) <= 1.0
  {
    var lo := c.knots[j + k + s - c.degree - 1];
    assert lo <= c.knots[s - 1];
    assert c.knots[s] <= c.knots[j + s];
    QuotientInUnit(t - lo, Denominator(c.degree, c.knots, s, k, j));
  }

  /**
   * The `alpha` of `de_boor_iterative` at level `k`, slot `j`, read with its own index
   * `i = j + k + i_start - degree`: it divides by `knots[i + degree - k] - knots[i - 1]`, an
   * interval that contains the span `[knots[s - 1], knots[s]]` and lies in the window
   * `knots[s - degree ..= s + degree - 1]`, and it is the `alpha` of de Boor's node `(k, j)`.
   */
  lemma AlphaAsComputed(c: BSpline, t: real, s: nat, k: nat, j: nat, i: nat)
    requires Shaped(c) && c.degree + 1 <= s <= |c.knots| - c.degree - 1
    requires 1 <= k <= c.degree && j <= c.degree - k
    requires NonZeroDenominators(c.degree, c.knots, s)
    requires i == j + k + s - c.degree
    ensures s - c.degree <= i - 1 <= s - 1 && s <= i + c.degree - k <= s + c.degree - 1
    ensures c.knots[i + c.degree - k] - c.knots[i - 1] != 0.0
    ensures (t - c.knots[i - 1]) / (c.knots[i + c.degree - k] - c.knots[i - 1]) ==
            Alpha(c.degree, c.knots, t, s, k, j)
  {
    assert Denominator(c.degree, c.knots, s, k, j) != 0.0;
  }

  /** De Boor's recursive node: level 0 is a control point, level `k` blends two of level `k - 1`. */
  function DeBoorNode(c: BSpline, t: real, s: nat, k: nat, j: nat): Point
    requires Shaped(c) && c.degree + 1 <= s <= |c.knots| - c.degree - 1
    requires k <= c.degree && j <= c.degree - k
    requires NonZeroDenominators(c.degree, c.knots, s)
    decreases k
  {
    if k == 0 then
      c.controlPoints[j + s - c.degree - 1]
    else
      Bezier.Interpolate(DeBoorNode(c, t, s, k - 1, j), DeBoorNode(c, t, s, k - 1, j + 1),
                         Alpha(c.degree, c.knots, t, s, k, j))
  }

  /** The point of the curve at `t`: the top node of de Boor's triangle on the evaluated span. */
  function CurveAt(c: BSpline, t: real): Point
    requires Valid(c) && Evaluable(c.degree, c.knots, t)
  {
    EvaluableIffNoNaN(c.degree, c.knots, t);
    DeBoorNode(c, t, Span(c.degree, c.knots, t), c.degree, 0)
  }

  /**
   * `de_boor_iterative(t, i_start)`: fills a buffer of `p + 1` points and overwrites it
   * level by level, slot `j` taking the node at `(k, j)` once `(k - 1, j)` is no longer needed.
   * Level `lvl` rewrites only slots `0 .. p - lvl`, so slot `m` keeps the node of level `p - m`.
   */
  method DeBoorIterative(c: BSpline, t: real, s: nat) returns (r: Point)
    requires Shaped(c) && c.degree + 1 <= s <= |c.knots| - c.degree - 1
    requires NonZeroDenominators(c.degree, c.knots, s)
    ensures r == DeBoorNode(c, t, s, c.degree, 0)
  {
    var p := c.degree;
    var tmp := new Point[p + 1];
    for j := 0 to p + 1
      invariant forall m :: 0 <= m < j ==> tmp[m] == DeBoorNode(c, t, s, 0, m)
    {
      tmp[j] := c.controlPoints[j + s - p - 1];
    }
    for lvl := 0 to p
      invariant forall m :: 0 <= m <= p - lvl ==> tmp[m] == DeBoorNode(c, t, s, lvl, m)
      invariant forall m :: p - lvl < m <= p ==> tmp[m] == DeBoorNode(c, t, s, p - m, m)
    {
      DeBoorLevel(c, t, s, tmp, lvl + 1);
    }
    r := tmp[0];
  }

  /**
   * One pass `k` of the outer loop of `de_boor_iterative`: slots `0 .. p - k` move from
   * level `k - 1` to level `k`, each reading its right neighbour before that is overwritten.
   */
  method DeBoorLevel(c: BSpline, t: real, s: nat, tmp: array<Point>, k: nat)
    requires Shaped(c) && c.degree + 1 <= s <= |c.knots| - c.degree - 1
    requires NonZeroDenominators(c.degree, c.knots, s)
    requires tmp.Length == c.degree + 1 && 1 <= k <= c.degree
    requires forall m :: 0 <= m <= c.degree - k + 1 ==> tmp[m] == DeBoorNode(c, t, s, k - 1, m)
    modifies tmp
    ensures forall m :: 0 <= m <= c.degree - k ==> tmp[m] == DeBoorNode(c, t, s, k, m)
    ensures forall m :: c.degree - k < m <= c.degree ==> tmp[m] == old(tmp[m])
  {
    var p := c.degree;
    for j := 0 to p - k + 1
      invariant forall m :: 0 <= m < j ==> tmp[m] == DeBoorNode(c, t, s, k, m)
      invariant forall m :: j <= m <= p ==> tmp[m] == old(tmp[m])
    {
      var i := j + k + s - p;
      AlphaAsComputed(c, t, s, k, j, i);
      var alpha := (t - c.knots[i - 1]) / (c.knots[i + p - k] - c.knots[i - 1]);
      ghost var next := DeBoorNode(c, t, s, k, j);
      assert next == Bezier.Interpolate(tmp[j], tmp[j + 1], alpha);
      tmp[j] := Bezier.Interpolate(tmp[j], tmp[j + 1], alpha);
    }
  }

  /**
   * `point(t)`: locates the span with `upper_bounds`, applies the match of the Rust code,
   * steps left past a zero-width span (the correction), and runs de Boor's algorithm.
   */
  method PointAt(c: BSpline, t: real) returns (r: Point)
    requires Valid(c) && Evaluable(c.degree, c.knots, t)
    ensures r == CurveAt(c, t)
  {
    var p := c.degree;
    var ub := UpperBounds(c.knots, t);
    var s := SpanFromUpperBound(p, |c.knots|, ub);
    assert s == SpanAsWritten(p, c.knots, t);
    while p > 0 && s > p + 1 && c.knots[s - 1] == c.knots[s]
      invariant p + 1 <= s <= |c.knots| - p - 1
      invariant StepLeft(p, c.knots, s) == Span(p, c.knots, t)
      decreases s
    {
      s := s - 1;
    }
    EvaluableIffNoNaN(p, c.knots, t);
    r := DeBoorIterative(c, t, s);
  }

  /** The correction only changes the span where the span as written has a NaN `alpha`. */
  lemma SpanAgreesWhereDefined(degree: nat, knots: seq<real>, t: real)
    requires InDomain(degree, knots, t)
    requires forall k: nat, j: nat | 1 <= k <= degree && j <= degree - k ::
               !AlphaNaN(degree, knots, t, SpanAsWritten(degree, knots, t), k, j)
    ensures Span(degree, knots, t) == SpanAsWritten(degree, knots, t)
  {
    var s0 := SpanAsWritten(degree, knots, t);
    SpanAsWrittenBrackets(degree, knots, t);
    if degree > 0 {
      assert !AlphaNaN(degree, knots, t, s0, degree, 0);
      assert knots[s0 - 1] < knots[s0];
    }
  }

  /**
   * As written, `point` fails at the right end of a non-degenerate domain whose end knot
   * is repeated: degree 1, knots `[0, 1, 2, 2, 3]`, `t = 2` selects the empty span `[2, 2]`
   * and the first `alpha` is `0 / 0`.
   */
  lemma SpanAsWrittenNaNAtRepeatedEnd()
    ensures InDomain(1, [0.0, 1.0, 2.0, 2.0, 3.0], 2.0)
    ensures SpanAsWritten(1, [0.0, 1.0, 2.0, 2.0, 3.0], 2.0) == 3
    ensures AlphaNaN(1, [0.0, 1.0, 2.0, 2.0, 3.0], 2.0, SpanAsWritten(1, [0.0, 1.0, 2.0, 2.0, 3.0], 2.0), 1, 0)
  {
    var knots := [0.0, 1.0, 2.0, 2.0, 3.0];
    assert Sorted(knots);
    FirstGreaterAt(knots, 2.0, 4);
  }

  /** With the correction the same parameter is evaluable: the span steps left to `[1, 2]`. */
  lemma SpanRepeatedEndEvaluable()
    ensures Span(1, [0.0, 1.0, 2.0, 2.0, 3.0], 2.0) == 2
    ensures Evaluable(1, [0.0, 1.0, 2.0, 2.0, 3.0], 2.0)
  {
    SpanAsWrittenNaNAtRepeatedEnd();
  }


  /** Strong convex hull: a de Boor node stays in any box holding the control points it blends. */
  lemma {:induction false} DeBoorNodeInBox(c: BSpline, t: real, s: nat, k: nat, j: nat, lo: Point, hi: Point)
    requires Valid(c) && c.degree + 1 <= s <= |c.knots| - c.degree - 1
    requires k <= c.degree && j <= c.degree - k
    requires NonZeroDenominators(c.degree, c.knots, s)
    requires c.knots[s - 1] <= t <= c.knots[s]
    requires forall m :: j + s - c.degree - 1 <= m <= j + k + s - c.degree - 1 ==>
               Bezier.InBox(c.controlPoints[m], lo, hi)
    ensures Bezier.InBox(DeBoorNode(c, t, s, k, j), lo, hi)
    decreases k
  {
    if k > 0 {
      DeBoorNodeInBox(c, t, s, k - 1, j, lo, hi);
      DeBoorNodeInBox(c, t, s, k - 1, j + 1, lo, hi);
      AlphaInUnit(c, t, s, k, j);
      Bezier.InterpolateInBox(DeBoorNode(c, t, s, k - 1, j), DeBoorNode(c, t, s, k - 1, j + 1),
                              Alpha(c.degree, c.knots, t, s, k, j), lo, hi);
    }
  }

  /** The curve point lies in every box holding the `p + 1` control points of its span. */
  lemma CurveInSpanHull(c: BSpline, t: real, lo: Point, hi: Point)
    requires Valid(c) && Evaluable(c.degree, c.knots, t)
    requires forall m :: Span(c.degree, c.knots, t) - c.degree - 1 <= m <= Span(c.degree, c.knots, t) - 1 ==>
               Bezier.InBox(c.controlPoints[m], lo, hi)
    ensures Bezier.InBox(CurveAt(c, t), lo, hi)
  {
    EvaluableIffNoNaN(c.degree, c.knots, t);
    SpanBrackets(c.degree, c.knots, t);
    DeBoorNodeInBox(c, t, Span(c.degree, c.knots, t), c.degree, 0, lo, hi);
  }

  /** A de Boor node depends only on the control points it blends. */
  lemma {:induction false} DeBoorNodeLocal(c: BSpline, d: BSpline, t: real, s: nat, k: nat, j: nat)
    requires Shaped(c) && Shaped(d) && c.degree == d.degree && c.knots == d.knots
    requires c.degree + 1 <= s <= |c.knots| - c.degree - 1
    requires k <= c.degree && j <= c.degree - k
    requires NonZeroDenominators(c.degree, c.knots, s)
    requires forall m :: j + s - c.degree - 1 <= m <= j + k + s - c.degree - 1 ==>
               c.controlPoints[m] == d.controlPoints[m]
    ensures DeBoorNode(c, t, s, k, j) == DeBoorNode(d, t, s, k, j)
    decreases k
  {
    if k > 0 {
      DeBoorNodeLocal(c, d, t, s, k - 1, j);
      DeBoorNodeLocal(c, d, t, s, k - 1, j + 1);
    }
  }

  /** Local support: changing a control point outside the span of `t` does not move `CurveAt(c, t)`. */
  lemma CurveLocal(c: BSpline, d: BSpline, t: real)
    requires Valid(c) && Valid(d) && c.degree == d.degree && c.knots == d.knots
    requires Evaluable(c.degree, c.knots, t)
    requires forall m :: Span(c.degree, c.knots, t) - c.degree - 1 <= m <= Span(c.degree, c.knots, t) - 1 ==>
               c.controlPoints[m] == d.controlPoints[m]
    ensures CurveAt(c, t) == CurveAt(d, t)
  {
    EvaluableIffNoNaN(c.degree, c.knots, t);
    DeBoorNodeLocal(c, d, t, Span(c.degree, c.knots, t), c.degree, 0);
  }

  /** A degree-0 curve is the control point of the knot interval holding `t`. */
  lemma Degree0PiecewiseConstant(c: BSpline, t: real, i: nat)
    requires Valid(c) && c.degree == 0 && i < |c.controlPoints|
    requires c.knots[i] <= t < c.knots[i + 1]
    ensures Evaluable(0, c.knots, t) && CurveAt(c, t) == c.controlPoints[i]
  {
    FirstGreaterAt(c.knots, t, i + 1);
    assert Span(0, c.knots, t) == i + 1;
  }

  /** If `t` is `p` times a knot just left of the span, every `alpha` is 0. */
  lemma {:induction false} DeBoorNodeAtLeftKnot(c: BSpline, t: real, s: nat, k: nat, j: nat)
    requires Shaped(c) && c.degree + 1 <= s <= |c.knots| - c.degree - 1
    requires k <= c.degree && j <= c.degree - k
    requires NonZeroDenominators(c.degree, c.knots, s)
    requires forall m :: s - c.degree <= m <= s - 1 ==> c.knots[m] == t
    ensures DeBoorNode(c, t, s, k, j) == c.controlPoints[j + s - c.degree - 1]
    decreases k
  {
    if k > 0 {
      DeBoorNodeAtLeftKnot(c, t, s, k - 1, j);
      assert Alpha(c.degree, c.knots, t, s, k, j) == 0.0;
    }
  }

  /** If `t` is `p` times a knot starting at the span's right end, every `alpha` is 1. */
  lemma {:induction false} DeBoorNodeAtRightKnot(c: BSpline, t: real, s: nat, k: nat, j: nat)
    requires Shaped(c) && c.degree + 1 <= s <= |c.knots| - c.degree - 1
    requires k <= c.degree && j <= c.degree - k
    requires NonZeroDenominators(c.degree, c.knots, s)
    requires forall m :: s <= m <= s + c.degree - 1 ==> c.knots[m] == t
    ensures DeBoorNode(c, t, s, k, j) == c.controlPoints[j + k + s - c.degree - 1]
    decreases k
  {
    if k > 0 {
      DeBoorNodeAtRightKnot(c, t, s, k - 1, j + 1);
      var den := Denominator(c.degree, c.knots, s, k, j);
      assert den == t - c.knots[j + k + s - c.degree - 1];
      assert den != 0.0;
      QuotientSelf(den);
    }
  }

  /** A curve whose first domain knot has multiplicity `p` starts at its first control point. */
  lemma ClampedStartInterpolates(c: BSpline)
    requires Valid(c)
    requires forall m :: 1 <= m <= c.degree ==> c.knots[m] == c.knots[c.degree]
    requires c.knots[c.degree] < c.knots[c.degree + 1]
    ensures Evaluable(c.degree, c.knots, c.knots[c.degree])
    ensures CurveAt(c, c.knots[c.degree]) == c.controlPoints[0]
  {
    var p, t := c.degree, c.knots[c.degree];
    FirstGreaterAt(c.knots, t, p + 1);
    assert Span(p, c.knots, t) == p + 1;
    EvaluableIffNoNaN(p, c.knots, t);
    DeBoorNodeAtLeftKnot(c, t, p + 1, p, 0);
  }

  /** A curve whose last domain knot has multiplicity `p` ends at its last control point. */
  lemma ClampedEndInterpolates(c: BSpline)
    requires Valid(c)
    requires forall m :: |c.knots| - c.degree - 1 <= m <= |c.knots| - 2 ==>
               c.knots[m] == c.knots[|c.knots| - c.degree - 1]
    requires c.knots[|c.knots| - c.degree - 2] < c.knots[|c.knots| - c.degree - 1]
    ensures Evaluable(c.degree, c.knots, c.knots[|c.knots| - c.degree - 1])
    ensures CurveAt(c, c.knots[|c.knots| - c.degree - 1]) == c.controlPoints[|c.controlPoints| - 1]
  {
    var p, n := c.degree, |c.knots|;
    var t := c.knots[n - p - 1];
    SpanAtClampedEnd(c);
    EvaluableIffNoNaN(p, c.knots, t);
    DeBoorNodeAtRightKnot(c, t, n - p - 1, p, 0);
    assert p + (n - p - 1) - p - 1 == |c.controlPoints| - 1;
  }

  lemma SpanAtClampedEnd(c: BSpline)
    requires Valid(c)
    requires forall m :: |c.knots| - c.degree - 1 <= m <= |c.knots| - 2 ==>
               c.knots[m] == c.knots[|c.knots| - c.degree - 1]
    requires c.knots[|c.knots| - c.degree - 2] < c.knots[|c.knots| - c.degree - 1]
    ensures Evaluable(c.degree, c.knots, c.knots[|c.knots| - c.degree - 1])
    ensures Span(c.degree, c.knots, c.knots[|c.knots| - c.degree - 1]) == |c.knots| - c.degree - 1
  {
    var p, n := c.degree, |c.knots|;
    var t := c.knots[n - p - 1];
    var ub := FirstGreater(c.knots, t);
    FirstGreaterIsFirst(c.knots, t);
    assert ub.Some? ==> ub.value > n - p - 1;
  }
}
