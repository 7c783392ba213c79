/**
 * Tensor-product B-spline surfaces (programming/src/bspline_surf.rs): construction, the
 * knot domains along u and v, and the two isolines, each built by evaluating one B-spline
 * curve per column (or row) of the control mesh and using the results as the control
 * polygon of a curve in the other direction.
 *
 * `controlMesh[i][j]` is row `i`, column `j`. Columns run along u (degree `degreeU`, knots
 * `knotsU`); rows run along v (degree `degreeV`, knots `knotsV`).
 */
module BSplineSurfaces {
  import opened Wrappers
  import opened Geometry
  import opened Knots
  import BSplineCurves

  /** `BSplineSurf { degree_u, degree_v, knots_u, knots_v, control_mesh }`. */
  datatype BSplineSurf = BSplineSurf(
    degreeU: nat, degreeV: nat, knotsU: seq<real>, knotsV: seq<real>, controlMesh: seq<seq<Point>>)

  /** What every surface built by `BSplineSurf::new` satisfies: a non-empty mesh. */
  predicate Valid(s: BSplineSurf) {
    |s.controlMesh| > 0
  }

  /** The one panic of `BSplineSurf::new`. */
  datatype SurfaceError = EmptyMesh

  /**
   * `BSplineSurf::new`: rejects an empty control mesh and performs no other validation;
   * degrees, knots (unsorted) and mesh are kept exactly as given.
   */
  function New(degree: (nat, nat), knots: (seq<real>, seq<real>), controlMesh: seq<seq<Point>>)
    : (r: Result<BSplineSurf, SurfaceError>)
    ensures r.Err? <==> |controlMesh| == 0
    ensures r.Ok? ==> Valid(r.value)
    ensures r.Ok? ==> r.value.degreeU == degree.0 && r.value.degreeV == degree.1
    ensures r.Ok? ==> r.value.knotsU == knots.0 && r.value.knotsV == knots.1
    ensures r.Ok? ==> r.value.controlMesh == controlMesh
  {
    if |controlMesh| == 0 then Err(EmptyMesh)
    else Ok(BSplineSurf(degree.0, degree.1, knots.0, knots.1, controlMesh))
  }

  /**
   * `knot_domain_u`: `(knots_u[degree_u], knots_u[len - 1 - degree_u])` read from the knots
   * as stored. Indexing (and the subtraction) panic unless `degree_u < len`.
   */
  function KnotDomainU(s: BSplineSurf): (d: (real, real))
    requires s.degreeU < |s.knotsU|
    ensures Sorted(s.knotsU) && 2 * s.degreeU < |s.knotsU| ==> d.0 <= d.1
    ensures Sorted(s.knotsU) && 2 * s.degreeU + 2 <= |s.knotsU| ==>
              forall t :: BSplineCurves.InDomain(s.degreeU, s.knotsU, t) <==> d.0 <= t <= d.1
  {
    (s.knotsU[s.degreeU], s.knotsU[|s.knotsU| - 1 - s.degreeU])
  }

  /** `knot_domain_v`, the same along v. */
  function KnotDomainV(s: BSplineSurf): (d: (real, real))
    requires s.degreeV < |s.knotsV|
    ensures Sorted(s.knotsV) && 2 * s.degreeV < |s.knotsV| ==> d.0 <= d.1
    ensures Sorted(s.knotsV) && 2 * s.degreeV + 2 <= |s.knotsV| ==>
              forall t :: BSplineCurves.InDomain(s.degreeV, s.knotsV, t) <==> d.0 <= t <= d.1
  {
    (s.knotsV[s.degreeV], s.knotsV[|s.knotsV| - 1 - s.degreeV])
  }

  /**
   * The knot domain along u over the knots as the column curves (and `isoline_u` curves)
   * hold them, sorted by `BSpline::new`: the domain every evaluation along u accepts.
   */
  function SortedKnotDomainU(s: BSplineSurf): (d: (real, real))
    requires s.degreeU < |s.knotsU|
    ensures 2 * s.degreeU < |s.knotsU| ==> d.0 <= d.1
    ensures 2 * s.degreeU + 2 <= |s.knotsU| ==>
              forall t :: BSplineCurves.InDomain(s.degreeU, SortKnots(s.knotsU), t) <==> d.0 <= t <= d.1
  {
    var k := SortKnots(s.knotsU);
    (k[s.degreeU], k[|k| - 1 - s.degreeU])
  }

  /** The knot domain along v over sorted knots: the domain of every row and `isoline_v` curve. */
  function SortedKnotDomainV(s: BSplineSurf): (d: (real, real))
    requires s.degreeV < |s.knotsV|
    ensures 2 * s.degreeV < |s.knotsV| ==> d.0 <= d.1
    ensures 2 * s.degreeV + 2 <= |s.knotsV| ==>
              forall t :: BSplineCurves.InDomain(s.degreeV, SortKnots(s.knotsV), t) <==> d.0 <= t <= d.1
  {
    var k := SortKnots(s.knotsV);
    (k[s.degreeV], k[|k| - 1 - s.degreeV])
  }

  /** The counts `BSpline::new` accepts: more points than the degree, and `points + degree + 1` knots. */
  predicate CurveCounts(degree: nat, points: nat, knots: nat) {
    degree < points && knots == points + degree + 1
  }

  /** Every row has at least `n` entries, so columns `0 .. n - 1` can be read. */
  predicate LongRows(mesh: seq<seq<Point>>, n: nat) {
    forall i :: 0 <= i < |mesh| ==> n <= |mesh[i]|
  }

  /** Every row has as many entries as the first. */
  predicate Rectangular(mesh: seq<seq<Point>>) {
    forall i :: 0 <= i < |mesh| ==> |mesh[i]| == |mesh[0]|
  }

  /** Column `j` of the mesh, top to bottom. */
  function Column(mesh: seq<seq<Point>>, j: nat): seq<Point>
    requires LongRows(mesh, j + 1)
  {
    seq(|mesh|, i requires 0 <= i < |mesh| => mesh[i][j])
  }

  /** `BSpline::new(degree_u, column j, knots_u)`. */
  function ColumnCurve(s: BSplineSurf, j: nat): (c: BSplineCurves.BSpline)
    requires LongRows(s.controlMesh, j + 1) && CurveCounts(s.degreeU, |s.controlMesh|, |s.knotsU|)
    ensures BSplineCurves.Valid(c) && c.degree == s.degreeU && c.knots == SortKnots(s.knotsU)
    ensures forall i :: 0 <= i < |s.controlMesh| ==> c.controlPoints[i] == s.controlMesh[i][j]
  {
    BSplineCurves.New(s.degreeU, Column(s.controlMesh, j), s.knotsU).value
  }

  /** `BSpline::new(degree_v, control_mesh[i].clone(), knots_v)`. */
  function RowCurve(s: BSplineSurf, i: nat): (c: BSplineCurves.BSpline)
    requires i < |s.controlMesh| && CurveCounts(s.degreeV, |s.controlMesh[i]|, |s.knotsV|)
    ensures BSplineCurves.Valid(c) && c.degree == s.degreeV && c.knots == SortKnots(s.knotsV)
    ensures c.controlPoints == s.controlMesh[i]
  {
    BSplineCurves.New(s.degreeV, s.controlMesh[i], s.knotsV).value
  }

  /**
   * What `isoline_v(u)` demands of `u`: once the first column curve has been built,
   * `point(u)` needs `u` in its domain and a non-degenerate span. Whether a column curve
   * can be built does not depend on the column, and neither does this condition.
   */
  predicate ColumnsEvaluableAt(s: BSplineSurf, u: real)
    requires Valid(s)
  {
    0 < |s.controlMesh[0]| && LongRows(s.controlMesh, 1) &&
    CurveCounts(s.degreeU, |s.controlMesh|, |s.knotsU|)
    ==> BSplineCurves.Evaluable(s.degreeU, SortKnots(s.knotsU), u)
  }

  /** What `isoline_u(v)` demands of `v`, once the first row curve has been built. */
  predicate RowsEvaluableAt(s: BSplineSurf, v: real)
    requires Valid(s)
  {
    CurveCounts(s.degreeV, |s.controlMesh[0]|, |s.knotsV|)
    ==> BSplineCurves.Evaluable(s.degreeV, SortKnots(s.knotsV), v)
  }

  /**
   * When `isoline_v` returns a curve: every row is at least as long as the first (longer
   * rows are tolerated, their extra points ignored), the columns meet the u curve counts
   * and the number of columns meets the v curve counts.
   */
  predicate IsolineVDefined(s: BSplineSurf)
    requires Valid(s)
  {
    LongRows(s.controlMesh, |s.controlMesh[0]|) &&
    CurveCounts(s.degreeU, |s.controlMesh|, |s.knotsU|) &&
    CurveCounts(s.degreeV, |s.controlMesh[0]|, |s.knotsV|)
  }

  /** The first `n` rows each meet the v curve counts. */
  predicate RowsFit(s: BSplineSurf, n: nat)
    requires n <= |s.controlMesh|
  {
    n == 0 || (RowsFit(s, n - 1) && CurveCounts(s.degreeV, |s.controlMesh[n - 1]|, |s.knotsV|))
  }

  lemma {:induction false} RowsFitIff(s: BSplineSurf, n: nat)
    requires n <= |s.controlMesh|
    ensures RowsFit(s, n) <==> forall m :: 0 <= m < n ==> CurveCounts(s.degreeV, |s.controlMesh[m]|, |s.knotsV|)
  {
    if n > 0 {
      RowsFitIff(s, n - 1);
    }
  }

  /**
   * When `isoline_u` returns a curve: every row meets the v curve counts (the first row
   * named on its own, as the one whose curve is evaluated first), and the number of rows
   * meets the u counts.
   */
  predicate IsolineUDefined(s: BSplineSurf)
    requires Valid(s)
  {
    CurveCounts(s.degreeV, |s.controlMesh[0]|, |s.knotsV|) && RowsFit(s, |s.controlMesh|) &&
    CurveCounts(s.degreeU, |s.controlMesh|, |s.knotsU|)
  }

  /** `BSpline::new(degree_u, column j, knots_u).point(u)`. */
  function ColumnPoint(s: BSplineSurf, j: nat, u: real): Point
    requires LongRows(s.controlMesh, j + 1) && CurveCounts(s.degreeU, |s.controlMesh|, |s.knotsU|)
    requires BSplineCurves.Evaluable(s.degreeU, SortKnots(s.knotsU), u)
  {
    BSplineCurves.CurveAt(ColumnCurve(s, j), u)
  }

  /** `BSpline::new(degree_v, control_mesh[i], knots_v).point(v)`. */
  function RowPoint(s: BSplineSurf, i: nat, v: real): Point
    requires i < |s.controlMesh| && CurveCounts(s.degreeV, |s.controlMesh[i]|, |s.knotsV|)
    requires BSplineCurves.Evaluable(s.degreeV, SortKnots(s.knotsV), v)
  {
    BSplineCurves.CurveAt(RowCurve(s, i), v)
  }

  /** The points of the column curves at `u`, one per column `j < n`: the control polygon `isoline_v` builds. */
  function ColumnPoints(s: BSplineSurf, u: real, n: nat): (r: seq<Point>)
    requires LongRows(s.controlMesh, n)
    requires 0 < n ==> CurveCounts(s.degreeU, |s.controlMesh|, |s.knotsU|)
    requires 0 < n ==> BSplineCurves.Evaluable(s.degreeU, SortKnots(s.knotsU), u)
    ensures |r| == n
  {
    seq(n, j requires 0 <= j < n => ColumnPoint(s, j, u))
  }

  /** The points of the row curves at `v`, one per row `i < n`: the control polygon `isoline_u` builds. */
  function RowPoints(s: BSplineSurf, v: real, n: nat): (r: seq<Point>)
    requires n <= |s.controlMesh| && RowsFit(s, n)
    requires 0 < n ==> BSplineCurves.Evaluable(s.degreeV, SortKnots(s.knotsV), v)
    ensures |r| == n
  {
    RowsFitIff(s, n);
    seq(n, i requires 0 <= i < n => RowPoint(s, i, v))
  }

  /** One more column appends its point to `ColumnPoints`. */
  lemma ColumnPointsSnoc(s: BSplineSurf, u: real, n: nat)
    requires LongRows(s.controlMesh, n + 1) && CurveCounts(s.degreeU, |s.controlMesh|, |s.knotsU|)
    requires BSplineCurves.Evaluable(s.degreeU, SortKnots(s.knotsU), u)
    ensures ColumnPoints(s, u, n + 1) == ColumnPoints(s, u, n) + [ColumnPoint(s, n, u)]
  {
  }

  /** One more row appends its point to `RowPoints`. */
  lemma RowPointsSnoc(s: BSplineSurf, v: real, n: nat)
    requires n < |s.controlMesh| && RowsFit(s, n + 1)
    requires BSplineCurves.Evaluable(s.degreeV, SortKnots(s.knotsV), v)
    ensures RowPoints(s, v, n + 1) == RowPoints(s, v, n) + [RowPoint(s, n, v)]
  {
  }

  /** The panics of an isoline: a row too short for a column index, or a curve constructor. */
  datatype IsolineError = RaggedMesh | CurveFailure(error: BSplineCurves.CurveError)

  /**
   * One pass of `isoline_v`'s outer loop: gathers column `j` row by row (failing on the
   * first row too short to have it), builds the u curve through it and evaluates it at `u`.
   */
  method ColumnPointAt(s: BSplineSurf, j: nat, u: real) returns (r: Result<Point, IsolineError>)
    requires LongRows(s.controlMesh, j + 1) && CurveCounts(s.degreeU, |s.controlMesh|, |s.knotsU|)
             ==> BSplineCurves.Evaluable(s.degreeU, SortKnots(s.knotsU), u)
    ensures r.Ok? <==> LongRows(s.controlMesh, j + 1) && CurveCounts(s.degreeU, |s.controlMesh|, |s.knotsU|)
    ensures r.Ok? ==> r.value == ColumnPoint(s, j, u)
    ensures r == Err(RaggedMesh) <==> !LongRows(s.controlMesh, j + 1)
  {
    var mesh := s.controlMesh;
    var column: seq<Point> := [];
    for i := 0 to |mesh|
      invariant |column| == i
      invariant forall k :: 0 <= k < i ==> j < |mesh[k]| && column[k] == mesh[k][j]
    {
      if |mesh[i]| <= j {
        return Err(RaggedMesh);
      }
      column := column + [mesh[i][j]];
    }
    assert column == Column(mesh, j);
    var spline := BSplineCurves.New(s.degreeU, column, s.knotsU);
    if spline.Err? {
      return Err(CurveFailure(spline.error));
    }
    var p := BSplineCurves.PointAt(spline.value, u);
    return Ok(p);
  }

  /**
   * `isoline_v(u)`: for each column `j` of the first row, the point of the u curve through
   * column `j` at `u` (failing as `ColumnPointAt` does); the points become the control
   * polygon of a v curve.
   */
  method IsolineV(s: BSplineSurf, u: real) returns (r: Result<BSplineCurves.BSpline, IsolineError>)
    requires Valid(s) && ColumnsEvaluableAt(s, u)
    ensures r.Ok? <==> IsolineVDefined(s)
    ensures r.Ok? ==> BSplineCurves.Valid(r.value) && r.value.degree == s.degreeV
    ensures r.Ok? ==> r.value.knots == SortKnots(s.knotsV) && |r.value.controlPoints| == |s.controlMesh[0]|
    ensures r.Ok? ==> r.value.controlPoints == ColumnPoints(s, u, |s.controlMesh[0]|)
    ensures r == Err(RaggedMesh) ==> !LongRows(s.controlMesh, |s.controlMesh[0]|)
    ensures r.Err? && LongRows(s.controlMesh, |s.controlMesh[0]|) ==> r.error.CurveFailure?
  {
    var points: seq<Point> := [];
    for j := 0 to |s.controlMesh[0]|
      invariant |points| == j
      invariant LongRows(s.controlMesh, j)
      invariant 0 < j ==> CurveCounts(s.degreeU, |s.controlMesh|, |s.knotsU|)
      invariant 0 < j ==> BSplineCurves.Evaluable(s.degreeU, SortKnots(s.knotsU), u)
      invariant points == ColumnPoints(s, u, j)
    {
      var p := ColumnPointAt(s, j, u);
      if p.Err? {
        return Err(p.error);
      }
      ColumnPointsSnoc(s, u, j);
      points := points + [p.value];
    }
    var isoline := BSplineCurves.New(s.degreeV, points, s.knotsV);
    if isoline.Err? {
      return Err(CurveFailure(isoline.error));
    }
    return Ok(isoline.value);
  }

  /** One pass of `isoline_u`'s loop: builds the v curve through row `i` and evaluates it at `v`. */
  method RowPointAt(s: BSplineSurf, i: nat, v: real) returns (r: Result<Point, IsolineError>)
    requires i < |s.controlMesh|
    requires CurveCounts(s.degreeV, |s.controlMesh[i]|, |s.knotsV|)
             ==> BSplineCurves.Evaluable(s.degreeV, SortKnots(s.knotsV), v)
    ensures r.Ok? <==> CurveCounts(s.degreeV, |s.controlMesh[i]|, |s.knotsV|)
    ensures r.Ok? ==> r.value == RowPoint(s, i, v)
    ensures r.Err? ==> r.error.CurveFailure?
  {
    var spline := BSplineCurves.New(s.degreeV, s.controlMesh[i], s.knotsV);
    if spline.Err? {
      return Err(CurveFailure(spline.error));
    }
    var p := BSplineCurves.PointAt(spline.value, v);
    return Ok(p);
  }

  /**
   * `isoline_u(v)`: for each row in turn, the point of the v curve through it at `v`
   * (failing on the first row whose counts are wrong); the points become the control
   * polygon of a u curve.
   */
  method IsolineU(s: BSplineSurf, v: real) returns (r: Result<BSplineCurves.BSpline, IsolineError>)
    requires Valid(s) && RowsEvaluableAt(s, v)
    ensures r.Ok? <==> IsolineUDefined(s)
    ensures r.Ok? ==> BSplineCurves.Valid(r.value) && r.value.degree == s.degreeU
    ensures r.Ok? ==> r.value.knots == SortKnots(s.knotsU) && |r.value.controlPoints| == |s.controlMesh|
    ensures r.Ok? ==> r.value.controlPoints == RowPoints(s, v, |s.controlMesh|)
    ensures r.Err? ==> r.error.CurveFailure?
  {
    var points: seq<Point> := [];
    for i := 0 to |s.controlMesh|
      invariant |points| == i
      invariant RowsFit(s, i)
      invariant 0 < i ==> CurveCounts(s.degreeV, |s.controlMesh[0]|, |s.knotsV|)
      invariant 0 < i ==> BSplineCurves.Evaluable(s.degreeV, SortKnots(s.knotsV), v)
      invariant points == RowPoints(s, v, i)
    {
      var p := RowPointAt(s, i, v);
      if p.Err? {
        RowsFitIff(s, |s.controlMesh|);
        return Err(p.error);
      }
      RowPointsSnoc(s, v, i);
      points := points + [p.value];
    }
    RowsFitIff(s, |s.controlMesh|);
    var isoline := BSplineCurves.New(s.degreeU, points, s.knotsU);
    if isoline.Err? {
      return Err(CurveFailure(isoline.error));
    }
    return Ok(isoline.value);
  }

  /** `isoline_u` only succeeds on a rectangular mesh: every row length is fixed by `knots_v`. */
  lemma IsolineUNeedsRectangular(s: BSplineSurf)
    requires Valid(s) && IsolineUDefined(s)
    ensures Rectangular(s.controlMesh)
  {
    RowsFitIff(s, |s.controlMesh|);
    forall i | 0 <= i < |s.controlMesh|
      ensures |s.controlMesh[i]| == |s.controlMesh[0]|
    {
      assert CurveCounts(s.degreeV, |s.controlMesh[i]|, |s.knotsV|);
      assert CurveCounts(s.degreeV, |s.controlMesh[0]|, |s.knotsV|);
    }
  }

  /**
   * On a rectangular mesh both isolines succeed under the same conditions: the row count
   * meets the u curve counts and the column count the v curve counts.
   */
  lemma RectangularIsolines(s: BSplineSurf)
    requires Valid(s) && Rectangular(s.controlMesh)
    ensures IsolineVDefined(s) <==>
              CurveCounts(s.degreeU, |s.controlMesh|, |s.knotsU|) &&
              CurveCounts(s.degreeV, |s.controlMesh[0]|, |s.knotsV|)
    ensures IsolineUDefined(s) <==> IsolineVDefined(s)
  {
    RowsFitIff(s, |s.controlMesh|);
    if CurveCounts(s.degreeV, |s.controlMesh[0]|, |s.knotsV|) {
      forall i | 0 <= i < |s.controlMesh|
        ensures CurveCounts(s.degreeV, |s.controlMesh[i]|, |s.knotsV|)
      {
        assert |s.controlMesh[i]| == |s.controlMesh[0]|;
      }
    }
  }

  /**
   * `isoline_v` does not require a rectangular mesh: a second row longer than the first is
   * accepted (its extra point is never read), while `isoline_u` rejects the same surface.
   */
  lemma IsolineVToleratesLongerRows()
    ensures var o := Point(0.0, 0.0);
            var s := BSplineSurf(0, 0, [0.0, 1.0, 2.0], [0.0, 1.0], [[o], [o, o]]);
            Valid(s) && !Rectangular(s.controlMesh) && IsolineVDefined(s) && !IsolineUDefined(s)
  {
    var o := Point(0.0, 0.0);
    var s := BSplineSurf(0, 0, [0.0, 1.0, 2.0], [0.0, 1.0], [[o], [o, o]]);
    assert !CurveCounts(s.degreeV, |s.controlMesh[1]|, |s.knotsV|);
  }

  /** Over sorted knots, `knot_domain_u` is the domain of every column curve. */
  lemma KnotDomainUOfColumns(s: BSplineSurf, j: nat)
    requires Sorted(s.knotsU)
    requires LongRows(s.controlMesh, j + 1) && CurveCounts(s.degreeU, |s.controlMesh|, |s.knotsU|)
    ensures KnotDomainU(s) == BSplineCurves.KnotDomain(ColumnCurve(s, j))
  {
    SortKnotsSorted(s.knotsU);
  }

  /** Over sorted knots the stored and sorted domains coincide. */
  lemma KnotDomainsAgreeWhenSorted(s: BSplineSurf)
    requires s.degreeU < |s.knotsU| && s.degreeV < |s.knotsV|
    ensures Sorted(s.knotsU) ==> KnotDomainU(s) == SortedKnotDomainU(s)
    ensures Sorted(s.knotsV) ==> KnotDomainV(s) == SortedKnotDomainV(s)
  {
    SortKnotsSorted(s.knotsU);
    SortKnotsSorted(s.knotsV);
  }

  /**
   * `new` keeps unsorted knots, and `knot_domain_u` reads them as stored: with degree 0 and
   * knots `[1, 0]` along u it reports the inverted range `(1, 0)`, while the one column
   * curve, built over the sorted knots `[0, 1]`, is defined over `(0, 1)`.
   */
  lemma KnotDomainUnsortedDisagrees()
    ensures var o := Point(0.0, 0.0);
            var s := BSplineSurf(0, 0, [1.0, 0.0], [0.0, 1.0], [[o]]);
            LongRows(s.controlMesh, 1) && CurveCounts(s.degreeU, |s.controlMesh|, |s.knotsU|) &&
            KnotDomainU(s) == (1.0, 0.0) &&
            BSplineCurves.KnotDomain(ColumnCurve(s, 0)) == (0.0, 1.0) &&
            SortedKnotDomainU(s) == (0.0, 1.0)
  {
    var o := Point(0.0, 0.0);
    var s := BSplineSurf(0, 0, [1.0, 0.0], [0.0, 1.0], [[o]]);
    assert multiset([1.0, 0.0]) == multiset([0.0, 1.0]);
    SortedUnique(SortKnots([1.0, 0.0]), [0.0, 1.0]);
  }
}
