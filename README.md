# Spline evaluation kernel of spline-viewer, in Dafny

This project models the evaluation kernel of the spline-viewer editor and proves properties of
the model:

- **Point arithmetic** (`geometry.dfy`, module `Geometry`). Models `programming/src/point.rs`:
  `clamp`, the componentwise operators, `dot` and the segment projection `project`.
- **Bezier curves** (`bezier.dfy`, module `Bezier`). Models `programming/pa1/src/bezier.rs`:
  the blanket `Interpolate` impl, recursive de Casteljau, `point`, and the nearest-segment
  fold of `insert_point`.
- **Knot vectors** (`knots.dfy`, module `Knots`). Holds what the other modules share:
  sortedness, the sort that `BSpline::new` and `BSplineBasis::new` apply, and the float sum
  used for Greville abscissae. `BSplineSurf::new` and `clamped_uniform` do not sort.
- **B-spline curves** (`bspline_curve.dfy`, module `BSplineCurves`). Models
  `programming/src/bspline.rs`:
  - the checked constructor and `knot_domain`;
  - the binary search `upper_bounds`;
  - the span selection of `point`;
  - the in-place iterative de Boor algorithm over an `array` buffer.
- **B-spline basis** (`bspline_basis.dfy`, module `BSplineBases`). Models
  `src/bspline_basis.rs`:
  - the `modified_knot` loop;
  - `generate_knot_vector` and `clamped_uniform`;
  - Greville abscissae;
  - the Cox–de Boor recursion `evaluate_basis`, with its zero-span guard.
- **Tensor-product surfaces** (`bspline_surf.dfy`, module `BSplineSurfaces`). Models
  `programming/src/bspline_surf.rs`: construction, the two knot domains, and the two isolines.
  Each isoline builds and evaluates one curve per column or row of the control mesh.

Modelling conventions:

- `f32` values are `real`.
- The generic control-point type `T` is the 2D `Point`.
- A panic of a constructor is an `Err` of a `Result`.
- A `debug_assert!` on an argument is a `requires`.
- An index-out-of-range or `usize`-underflow panic on an argument is a `requires` as well.
  This covers `knot_domain` of the basis and of the surface, `greville_abscissa`, `eval`,
  `BSplineBasis::new` and the Bezier `point`.
- The exception is the isolines: a row too short for column `j` is `Err(RaggedMesh)`, so that
  the isoline contracts can state exactly which meshes succeed.
- The loops that change state are methods with loop invariants. Each is proved against a
  specification function: `UpperBounds` against `FirstGreater`, `DeBoorIterative` against
  `DeBoorNode`, `FindModifiedKnot` against `LastIncreaseBefore`, `GrevilleAbscissa` against
  `GrevilleFilter`, and `IsolineV`/`IsolineU` against `ColumnPoints`/`RowPoints`.

In this revision of the code:

- `BSpline::new` does not generate knots for an empty knot vector; it rejects it, because the
  count is wrong.
- The Bezier `insert_point` only computes and prints the nearest segment; it inserts nothing.
- `BSplineSurf::new` validates nothing beyond a non-empty mesh. `isoline_v` therefore accepts
  rows longer than the first one.

## Model

| member | source | states |
|---|---|---|
| Geometry.Clamp | programming/src/point.rs:6-14 | the result lies in `[lo, hi]` when `lo <= hi`; an in-range value is returned unchanged; below the range gives `lo`, above it gives `hi` |
| Geometry.DotSymmetric | programming/src/point.rs:24-26 | `a.dot(b) == b.dot(a)` |
| Geometry.DotSelf | programming/src/point.rs:24-26 | `p.dot(p) >= 0`, and it is 0 exactly at the origin |
| Geometry.Sub | programming/src/point.rs:51-56 | the difference of two points is the origin exactly when they are equal |
| Geometry.Scale | programming/src/point.rs:33-38 | multiplying by 1 keeps the point, multiplying by 0 gives the origin |
| Geometry.Div | programming/src/point.rs:39-44 | for a non-zero divisor, multiplying the quotient back by the divisor restores the point |
| Geometry.AddSubCancel | programming/src/point.rs:45-56 | the componentwise `+` and `-` undo each other: `(a + b) - b == a` and `(a - b) + b == a` |
| Geometry.DivScaleCancel | programming/src/point.rs:33-44 | dividing by a non-zero scalar undoes multiplying by it |
| Geometry.SegmentLength | programming/src/point.rs:59-61 | the squared length of `b - a` is non-negative, and zero exactly when `a == b` (the divisor of `project`) |
| Geometry.Project | programming/src/point.rs:57-65 | a result exists exactly when `a != b` (otherwise 0/0 yields NaN); its parameter lies in `[0, 1]` |
| Geometry.ProjectDistance | programming/src/point.rs:62-64 | the returned (squared) distance is the distance from `p` to `a + v*t`, and is non-negative |
| Geometry.ProjectEnds | programming/src/point.rs:61 | the parameter is 0 when `(p-a)·(b-a) <= 0`, and 1 when `(p-a)·(b-a) >= |b-a|²` |
| Geometry.OnSegmentEnds | programming/src/point.rs:62 | the projected point `a + v*t` is `a` at `t = 0` and `b` at `t = 1` |
| Geometry.ProjectIsClosest | programming/src/point.rs:57-65 | no point of segment `a-b` is closer to `p` than the one `project` returns |
| Bezier.Interpolate | programming/pa1/src/bezier.rs:29-33 | `interpolate(a, b, t)` is `a` at `t = 0` and `b` at `t = 1` |
| Bezier.InterpolateLine | programming/pa1/src/bezier.rs:29-33 | the interpolant moves from `a` along `b - a` in proportion to `t` |
| Bezier.InterpolateInBox | programming/pa1/src/bezier.rs:29-33 | for `t` in `[0, 1]`, the interpolant stays in every box that holds both ends |
| Bezier.DeCasteljau | programming/pa1/src/bezier.rs:87-95 | `de_casteljau(t, r, i)` is `control_points[i]` at `t = 0` and `control_points[i + r]` at `t = 1`, for every level `r` |
| Bezier.DeCasteljauLocal | programming/pa1/src/bezier.rs:87-95 | a call at `(r, i)` reads only `control_points[i..=i+r]`: curves agreeing there give the same result |
| Bezier.DeCasteljauInBox | programming/pa1/src/bezier.rs:87-95 | for `t` in `[0, 1]`, the result stays in every box that holds the points it reads |
| Bezier.PointAt | programming/pa1/src/bezier.rs:58-61 | `point(0)` is the first control point and `point(1)` the last; a one-point curve is that point for every `t`; every point lies in the bounding box of the control polygon |
| Bezier.NearestSegment | programming/pa1/src/bezier.rs:75-83 | the fold yields `(0, f32::MAX)` when no distance is below `f32::MAX`; otherwise it yields the lowest-index segment whose distance is strictly below all earlier ones and no larger than any |
| Bezier.InsertPoint | programming/pa1/src/bezier.rs:68-85 | returns early exactly for a one-point curve. Otherwise it reports the first segment of minimal distance among the `windows(2).map(project)` distances (`SegmentDistances`: one per consecutive pair, in order), or `(0, f32::MAX)` for an empty polygon; the curve value is unchanged |
| Knots.SortKnots | programming/src/bspline.rs:37 | the sorted knot vector is sorted, has the same multiset of knots, and the same length |
| Knots.SortedUnique | src/bspline_basis.rs:15 | two sorted sequences with the same multiset are equal, so any sorting algorithm gives the same knots |
| Knots.SortKnotsSorted | programming/src/bspline.rs:37 | sorting an already sorted knot vector leaves it unchanged |
| Knots.SortKnotsIdempotent | programming/src/bspline.rs:37 | sorting twice is sorting once |
| Knots.SumMonotone | src/bspline_basis.rs:58-65 | the knot sum respects element-wise order |
| Knots.SumBounds | src/bspline_basis.rs:58-65 | a sum of `m` knots in `[lo, hi]` lies in `[m*lo, m*hi]` |
| Knots.MeanBounds | src/bspline_basis.rs:58-66 | the fold of `m` knots in `[lo, hi]`, divided by `m`, lies in `[lo, hi]` |
| BSplineCurves.New | programming/src/bspline.rs:29-39 | `Ok` exactly when `degree < |cp|` and `|knots| == |cp| + degree + 1`, which includes rejecting an empty knot vector. Too few points is reported first, then the knot count with got/expected. On `Ok`: degree and points unchanged, knots sorted with the same multiset, and already sorted knots unchanged |
| BSplineCurves.KnotDomain | programming/src/bspline.rs:68-70 | under the constructor invariant, `domain.0 <= domain.1`, and `t` is in the domain exactly when `domain.0 <= t <= domain.1` |
| BSplineCurves.FirstGreaterIsFirst | programming/src/bspline.rs:95-97 | the specification of `upper_bounds`: `Some(i)` has `data[i] > value` and `data[k] <= value` for all `k < i`; `None` exactly when no element exceeds `value` |
| BSplineCurves.FirstGreaterAt | programming/src/bspline.rs:98-118 | when a prefix of `i` elements is `<= value` and the rest `> value`, the first greater index is `i` (or `None` when `i` is the length) |
| BSplineCurves.UpperBounds | programming/src/bspline.rs:98-118 | the binary search (`first`/`count` loop) over sorted data returns exactly the first index of an element greater than `value`, or `None` |
| BSplineCurves.SpanFromUpperBound | programming/src/bspline.rs:47-53 | the `match` never goes past the last span `len - degree - 1`, or past `degree` when that is larger. On a knot vector with room for a span, a first-greater index past the first `degree + 1` knots, or none, gives a span in `[degree + 1, len - degree - 1]`, so every knot and control point de Boor reads is in range |
| BSplineCurves.SpanAsWritten | programming/src/bspline.rs:47-53 | for in-domain `t`, the `match` yields a span in `[degree + 1, len - degree - 1]`, so the `x == 0` arm is never taken and every index read by de Boor is in range |
| BSplineCurves.SpanAsWrittenBrackets | programming/src/bspline.rs:45-53 | the span as written satisfies `knots[i - 1] <= t <= knots[i]`, with `t < knots[i]` except at the last span |
| BSplineCurves.Span | programming/src/bspline.rs:47-54 | the corrected span (see Findings) stays in `[degree + 1, len - degree - 1]` |
| BSplineCurves.SpanBrackets | programming/src/bspline.rs:45-54 | the corrected span brackets `t`, and is a non-empty interval whenever the knot domain is more than a point |
| BSplineCurves.StepLeftNonDegenerate | programming/src/bspline.rs:86-87 | stepping left past zero-width spans ends on a non-empty span when the domain is non-degenerate |
| BSplineCurves.EvaluableIffSpanNonEmpty | programming/src/bspline.rs:43-55 | an in-domain `t` is evaluable exactly when the evaluated span is non-empty (or the degree is 0) |
| BSplineCurves.EvaluableIffNoNaN | programming/src/bspline.rs:86-87 | an in-domain `t` is evaluable exactly when no `alpha` of the de Boor triangle is `0/0` (the `debug_assert!(!alpha.is_nan())`); then every denominator is non-zero |
| BSplineCurves.AlphaInUnit | programming/src/bspline.rs:86 | with `t` inside its span, every `alpha` lies in `[0, 1]` |
| BSplineCurves.AlphaAsComputed | programming/src/bspline.rs:85-86 | with `i = j + k + i_start - degree`, the `alpha` divides by `knots[i + degree - k] - knots[i - 1]`. That interval contains the span `[knots[i_start - 1], knots[i_start]]` and lies in the window `knots[i_start - degree ..= i_start + degree - 1]`, so every index is in range. The denominator is non-zero, and the quotient is the `alpha` of de Boor's node `(k, j)` |
| BSplineCurves.DeBoorIterative | programming/src/bspline.rs:76-92 | the buffer algorithm returns the top node `(degree, 0)` of de Boor's recursive triangle; the seeded points are `control_points[j + i_start - degree - 1]` |
| BSplineCurves.DeBoorLevel | programming/src/bspline.rs:82-90 | level `k` rewrites exactly `tmp[0 ..= degree - k]` with the level-`k` nodes and leaves the rest of the buffer unchanged |
| BSplineCurves.PointAt | programming/src/bspline.rs:43-55 | `point(t)` computes `CurveAt(c, t)`: span search, the `match`, the zero-width correction, then de Boor |
| BSplineCurves.SpanAgreesWhereDefined | programming/src/bspline.rs:47-54 | wherever the span as written has no NaN `alpha`, the corrected span is the same span, so `PointAt` computes what `point` computes |
| BSplineCurves.SpanAsWrittenNaNAtRepeatedEnd | programming/src/bspline.rs:47-53 | for degree 1, knots `[0, 1, 2, 2, 3]` and `t = 2` (in the domain), the span as written is 3 and its first `alpha` is `0/0` |
| BSplineCurves.SpanRepeatedEndEvaluable | programming/src/bspline.rs:47-54 | for the same input, the corrected span is 2 and `t` is evaluable |
| BSplineCurves.DeBoorNodeInBox | programming/src/bspline.rs:76-92 | every de Boor node lies in every box that holds the control points it blends |
| BSplineCurves.CurveInSpanHull | programming/src/bspline.rs:43-55 | strong convex hull: `point(t)` lies in every box that holds the `degree + 1` control points of its span |
| BSplineCurves.DeBoorNodeLocal | programming/src/bspline.rs:76-92 | a de Boor node depends only on the control points it blends |
| BSplineCurves.CurveLocal | programming/src/bspline.rs:43-55 | local support: curves agreeing on the span's control points agree at `t` |
| BSplineCurves.Degree0PiecewiseConstant | programming/src/bspline.rs:76-92 | for degree 0 the result is the seeded control point of the knot interval that holds `t` |
| BSplineCurves.DeBoorNodeAtLeftKnot | programming/src/bspline.rs:76-92 | with `t` a knot of multiplicity `degree` at the span's left end, every node is its leftmost control point |
| BSplineCurves.DeBoorNodeAtRightKnot | programming/src/bspline.rs:76-92 | with `t` a knot of multiplicity `degree` at the span's right end, every node is its rightmost control point |
| BSplineCurves.ClampedStartInterpolates | programming/src/bspline.rs:43-55 | a curve whose first domain knot has multiplicity `degree` passes through its first control point at `knot_domain().0` |
| BSplineCurves.ClampedEndInterpolates | programming/src/bspline.rs:43-55 | a curve whose last domain knot has multiplicity `degree` passes through its last control point at `knot_domain().1` |
| BSplineCurves.SpanAtClampedEnd | programming/src/bspline.rs:47-53 | at a clamped right end, the span is `len - degree - 1` and `t` is evaluable |
| BSplineBases.ModifiedKnotUnique | src/bspline_basis.rs:16-21 | the modified knot is determined by the knots |
| BSplineBases.LastIncreaseBefore | src/bspline_basis.rs:17-21 | the last index `i < m` with `knots[i] < knots[i+1]`, or 0 when there is none |
| BSplineBases.FindModifiedKnot | src/bspline_basis.rs:16-21 | the loop sets `modified_knot` to the last `i` with `knots[i] < knots[i + 1]`, or 0 |
| BSplineBases.NewBasis | src/bspline_basis.rs:14-27 | `new` keeps the degree, sorts the knots (same multiset; sorted input unchanged) and sets the modified knot by that rule |
| BSplineBases.GenerateKnotVector | src/bspline_basis.rs:111-121 | returns exactly `knots_required` knots, each equal to the closed form `GeneratedKnot` |
| BSplineBases.GeneratedKnotSteps | src/bspline_basis.rs:111-121 | a generated knot vector starts at 0, each step is 0 or 1, and it is sorted |
| BSplineBases.GeneratedKnotPlateaus | src/bspline_basis.rs:116 | unclamped, `knots[i] == i`. Clamped: the first `degree + 1` knots are 0 and the last `degree + 1` are equal; the last is `knots_required - 1 - 2*degree`, climbing by exactly 1 per knot in between |
| BSplineBases.ClampedUniform | src/bspline_basis.rs:29-42 | the knots are exactly `generate_knot_vector(true, n + d + 1, d)`: sorted, `d + 1` zeros at the start, then steps of exactly 1 up to an equal plateau at the end. The modified knot follows the rule of `new` and is `n - 1` when `n > d`, otherwise 0 |
| BSplineBases.ClampedModifiedKnot | src/bspline_basis.rs:31-36 | in a clamped generated knot vector the last increase is the one into the end plateau, at `n - 1`, or there is none when `n <= d` |
| BSplineBases.KnotDomain | src/bspline_basis.rs:47-52 | on sorted knots, `domain.0 <= domain.1` and the domain lies within the knot range |
| BSplineBases.Greville | src/bspline_basis.rs:58-65 | the abscissa of function `i` is the mean of `knots[i+1..=i+degree]`; on sorted knots it lies between the first and the last knot it averages |
| BSplineBases.GrevilleFilter | src/bspline_basis.rs:53-74 | the kept abscissae number at most `|knots| - degree - 1`, and each lies within the knot domain |
| BSplineBases.GrevilleAbscissa | src/bspline_basis.rs:53-74 | the loop returns the in-domain means of `knots[i+1..=i+degree]`, in index order; nothing for degree 0 (NaN fails both tests) |
| BSplineBases.GrevilleMonotone | src/bspline_basis.rs:58-66 | on sorted knots, consecutive abscissae do not decrease |
| BSplineBases.GrevilleSorted | src/bspline_basis.rs:53-74 | the returned abscissae are non-decreasing for sorted knots |
| BSplineBases.GrevilleInDomain | src/bspline_basis.rs:67-71 | with end knots of multiplicity `degree`, every abscissa lies within the knot domain |
| BSplineBases.GrevilleClampedComplete | src/bspline_basis.rs:53-74 | for such knots the filter drops nothing: all `|knots| - degree - 1` abscissae, in index order |
| BSplineBases.EvaluateBasis | src/bspline_basis.rs:80-109 | basis function `i` of degree `k` is 0 outside `[knots[i], knots[i+k+1]]` |
| BSplineBases.BasisNonNegative | src/bspline_basis.rs:80-109 | on sorted knots every basis value is non-negative |
| BSplineBases.Eval | src/bspline_basis.rs:75-78 | `eval` vanishes outside the function's support and is non-negative on sorted knots |
| BSplineBases.Degree0Indicator | src/bspline_basis.rs:81-93 | the degree-0 value is 0 or 1. It is 1 exactly when `knots[i] <= t < knots[i+1]`, or when `i` is the modified knot and `knots[i] <= t <= knots[i+1]` |
| BSplineBases.ZeroWidthVanishes | src/bspline_basis.rs:94-108 | a basis function with zero-width support is 0 everywhere (the zero-span guard) |
| BSplineBases.Recurrence | src/bspline_basis.rs:94-108 | on sorted knots, the range test of the recursive case only skips terms that are 0 anyway |
| BSplineBases.InteriorIndicator | src/bspline_basis.rs:81-93 | below the last knot exactly one degree-0 function is 1 |
| BSplineBases.EndIndicator | src/bspline_basis.rs:84-85 | at the last knot exactly one degree-0 function, the modified knot's, is 1 |
| BSplineBases.Degree0PartitionOfUnity | src/bspline_basis.rs:81-93 | the degree-0 functions sum to 1 on the whole knot range, the right end included |
| BSplineBases.LevelStep | src/bspline_basis.rs:94-108 | inside the degree-`k` domain, the level-`k` functions sum to the same as level `k - 1` |
| BSplineBases.PartitionOfUnity | src/bspline_basis.rs:75-109 | inside the knot domain the `|knots| - 1 - k` basis functions of degree `k` sum to 1 |
| BSplineSurfaces.New | programming/src/bspline_surf.rs:22-32 | `Err` exactly for an empty mesh; otherwise degrees, knots (unsorted) and mesh are stored unchanged |
| BSplineSurfaces.KnotDomainU | programming/src/bspline_surf.rs:45-47 | `(knots_u[degree_u], knots_u[len-1-degree_u])` read as stored; for sorted knots, the range of `t` the u curves accept |
| BSplineSurfaces.KnotDomainV | programming/src/bspline_surf.rs:52-54 | the same along v |
| BSplineSurfaces.SortedKnotDomainU | programming/src/bspline_surf.rs:45-47 | the corrected domain along u (see Findings): ordered, and exactly the parameters every curve built from `knots_u` accepts |
| BSplineSurfaces.SortedKnotDomainV | programming/src/bspline_surf.rs:52-54 | the same along v |
| BSplineSurfaces.ColumnCurve | programming/src/bspline_surf.rs:60-67 | the curve through column `j` is valid, has `degree_u` and the sorted `knots_u`, and its point `i` is `control_mesh[i][j]` |
| BSplineSurfaces.RowCurve | programming/src/bspline_surf.rs:80 | the curve through row `i` is valid, has `degree_v` and the sorted `knots_v`, and its points are the row |
| BSplineSurfaces.RowsFitIff | programming/src/bspline_surf.rs:78-82 | the first `n` rows fit the v curve counts, stated recursively, exactly when each of them does |
| BSplineSurfaces.ColumnPointAt | programming/src/bspline_surf.rs:60-68 | one column pass fails with `RaggedMesh` exactly when a row is too short for column `j`. It succeeds exactly when the column curve can be built, and then yields that curve evaluated at `u` |
| BSplineSurfaces.IsolineV | programming/src/bspline_surf.rs:56-72 | succeeds exactly when every row is as long as the first and both curve counts hold. The result has `degree_v`, the sorted `knots_v`, and one point per column of row 0: point `j` is the column-`j` curve at `u`. Failures are `RaggedMesh` on a short row, else a curve-constructor error |
| BSplineSurfaces.RowPointAt | programming/src/bspline_surf.rs:79-81 | one row pass succeeds exactly when the row curve can be built, and then yields that curve evaluated at `v` |
| BSplineSurfaces.IsolineU | programming/src/bspline_surf.rs:74-85 | succeeds exactly when every row fits the v counts and the row count fits the u counts. The result has `degree_u`, the sorted `knots_u`, and one point per row: point `i` is the row-`i` curve at `v`. A failure is a curve-constructor error |
| BSplineSurfaces.IsolineUNeedsRectangular | programming/src/bspline_surf.rs:80 | `isoline_u` only succeeds on a rectangular mesh |
| BSplineSurfaces.RectangularIsolines | programming/src/bspline_surf.rs:56-85 | on a rectangular mesh both isolines succeed under the same condition: the row count fits `(degree_u, knots_u)` and the column count fits `(degree_v, knots_v)` |
| BSplineSurfaces.IsolineVToleratesLongerRows | programming/src/bspline_surf.rs:60-63 | a mesh `[[o], [o, o]]` is accepted by `isoline_v` and rejected by `isoline_u` |
| BSplineSurfaces.KnotDomainUOfColumns | programming/src/bspline_surf.rs:45-47 | over sorted knots, `knot_domain_u` is the domain of every column curve |
| BSplineSurfaces.KnotDomainsAgreeWhenSorted | programming/src/bspline_surf.rs:45-54 | over sorted knots, the stored and the corrected domains coincide |
| BSplineSurfaces.KnotDomainUnsortedDisagrees | programming/src/bspline_surf.rs:45-47 | with `degree_u = 0` and `knots_u = [1, 0]`, `knot_domain_u` is `(1, 0)` while the column curve's domain is `(0, 1)` |

## Left out

- `Point::length` and its `sqrt`: `project` returns the squared distance, which orders
  segments the same way.
- IEEE `f32` behaviour: values are exact reals, and rounding, infinities and overflow are not
  modelled. The NaN cases the code reaches are modelled explicitly:
  - `project` on `a == b` is `None`;
  - a degree-0 Greville abscissa is dropped;
  - the `!is_finite()` guard of `evaluate_basis` is "zero denominator gives coefficient 0".
- Knot sorting uses insertion sort in place of Rust's merge sort. By `Knots.SortedUnique` both
  yield the same sequence. The `partial_cmp().unwrap()` panic on NaN knots is not modelled.
- Debug assertions (`t` in the domain, `alpha` not NaN, Bezier `t` in `[0, 1]`) are
  preconditions. Release builds, which skip them, are not modelled.
- The generic control-point type is the 2D `Point`. The 3D points the surfaces are used
  with are not part of this model.
- `println!` output in `bspline_surf.rs` and `bezier.rs` is not modelled.
- The accessors (`control_points()`, `knots()`, `degree()`, `degree_u()`, `degree_v()`) are
  the datatype fields. `Point::new` and `Bezier::new` are the datatype constructors.
- Bezier.InsertPoint takes the per-segment distance as a function parameter. The
  `ProjectToSegment` trait of `bezier.rs` returns a bare `f32`, and the impl it would use for
  `Point` is not part of this model.
- Geometry.Div: division by zero (an IEEE infinity) is excluded by a precondition.
- BSplineBases.NewBasis: requires at least one knot. The loop bound `knots.len() - 1`
  underflows on an empty knot vector.
- BSplineBases.KnotDomain: requires `degree < len`; the index panic of `knots[degree]` is not
  modelled.
- BSplineBases.GrevilleAbscissa: requires `degree < len`; the underflow of
  `knots.len() - degree - 1` is not modelled.
- BSplineBases.Eval: requires a valid function index, `fcn < len - degree - 1`. Beyond it the
  source either panics on an index past the last knot or, when `t < knots[fcn]` makes `&&`
  short-circuit, returns 0; neither outcome is modelled.
- BSplineSurfaces.KnotDomainU and BSplineSurfaces.KnotDomainV: require `degree < len`; the
  index panic is not modelled.
- Bezier.PointAt: requires at least one control point; the underflow of `len() - 1` is not
  modelled.
- BSplineCurves.PointAt evaluates on the corrected span (see Findings). Where the code as
  written succeeds, the two agree (`SpanAgreesWhereDefined`).
- `BSplineSurf` isolines evaluate every column or row curve under one precondition:
  `ColumnsEvaluableAt` / `RowsEvaluableAt`, the `debug_assert!` of `point` for the first curve
  built. All curves share the degree and knots, so the condition does not depend on the
  column or row.
- The surface Greville accessors and the nodal surface-interpolation solver are not in these
  source files and are not part of this model.
- The curve-editing operations (`set_degree`, `set_clamped`, `remove_point`, and the
  index-returning `insert_point`) are not in these source files.

## Findings

| source | as written | input that shows it | evidently intended | confidence | as-written member | corrected member |
|---|---|---|---|---|---|---|
| programming/src/bspline.rs:47-54 | `point` clamps the `upper_bounds` index to `len - degree - 1`. When the domain's right end knot is repeated inside the knot vector, that span has zero width and the first `alpha` is `0/0`, so the `debug_assert!` fires for an in-domain `t` | degree 1, knots `[0, 1, 2, 2, 3]`, `t = 2 = knot_domain().1` | every `t` of a non-degenerate domain evaluates: step left past zero-width spans to `[1, 2]` | medium, not executed | BSplineCurves.SpanAsWrittenNaNAtRepeatedEnd | BSplineCurves.SpanRepeatedEndEvaluable |
| programming/src/bspline_surf.rs:45-47 | `knot_domain_u` reads `knots_u` as stored. `new` keeps them unsorted, while every curve built from them sorts them, so the reported range need not be the range the curves accept (`knot_domain_v` likewise) | `degree_u = 0`, `knots_u = [1, 0]`, mesh `[[o]]`: `knot_domain_u = (1, 0)`, column curve domain `(0, 1)` | report the domain of the sorted knots | low, not executed | BSplineSurfaces.KnotDomainUnsortedDisagrees | BSplineSurfaces.SortedKnotDomainU |
