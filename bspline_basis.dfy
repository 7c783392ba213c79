/**
 * The standalone B-spline basis (src/bspline_basis.rs): the knot vector with its
 * "modified knot" (the knot interval closed on the right so that the last basis function
 * reaches the end of the domain), generated integer knot vectors, Greville abscissae and
 * the Cox-de Boor recursion.
 */
module BSplineBases {
  import opened Knots
  import Geometry

  /** `BSplineBasis { degree, knots, modified_knot }`. */
  datatype BSplineBasis = BSplineBasis(degree: nat, knots: seq<real>, modifiedKnot: nat)

  /** Some knot interval `[knots[i], knots[i + 1]]` has positive width. */
  predicate HasIncrease(knots: seq<real>) {
    exists i :: 0 <= i < |knots| - 1 && knots[i] < knots[i + 1]
  }

  /** `mk` is the last index `i` with `knots[i] < knots[i + 1]`, or 0 when there is none. */
  predicate IsModifiedKnot(knots: seq<real>, mk: nat) {
    (HasIncrease(knots) ==>
       mk + 1 < |knots| && knots[mk] < knots[mk + 1] &&
       forall i :: mk < i < |knots| - 1 ==> !(knots[i] < knots[i + 1])) &&
    (!HasIncrease(knots) ==> mk == 0)
  }

  /** At most one index is the modified knot. */
  lemma ModifiedKnotUnique(knots: seq<real>, a: nat, b: nat)
    requires IsModifiedKnot(knots, a) && IsModifiedKnot(knots, b)
    ensures a == b
  {
  }

  /** The last increase among the intervals starting before `m`, or 0. */
  function LastIncreaseBefore(knots: seq<real>, m: nat): (r: nat)
    requires m < |knots|
    ensures r <= m
    ensures (exists i :: 0 <= i < m && knots[i] < knots[i + 1]) ==>
              r < m && knots[r] < knots[r + 1] && forall i :: r < i < m ==> !(knots[i] < knots[i + 1])
    ensures (forall i :: 0 <= i < m ==> !(knots[i] < knots[i + 1])) ==> r == 0
  {
    if m == 0 then 0
    else if knots[m - 1] < knots[m] then m - 1
    else LastIncreaseBefore(knots, m - 1)
  }

  /** The loop of `new` and `clamped_uniform` that sets `modified_knot`. */
  method FindModifiedKnot(knots: seq<real>) returns (mk: nat)
    requires |knots| >= 1
    ensures IsModifiedKnot(knots, mk)
  {
    mk := 0;
    for i := 0 to |knots| - 1
      invariant mk == LastIncreaseBefore(knots, i)
    {
      if knots[i] < knots[i + 1] {
        mk := i;
      }
    }
  }

  /** What a basis built by `new` or `clamped_uniform` satisfies. */
  predicate WellFormed(b: BSplineBasis) {
    |b.knots| >= 1 && Sorted(b.knots) && IsModifiedKnot(b.knots, b.modifiedKnot)
  }

  /**
   * `BSplineBasis::new`: sorts the knots and finds the modified knot. The Rust loop bound
   * `knots.len() - 1` underflows on an empty knot vector, hence `|knots| >= 1`.
   */
  method NewBasis(degree: nat, knots: seq<real>) returns (b: BSplineBasis)
    requires |knots| >= 1
    ensures WellFormed(b)
    ensures b.degree == degree && multiset(b.knots) == multiset(knots)
    ensures Sorted(knots) ==> b.knots == knots
  {
    var sorted := SortKnots(knots);
    SortKnotsSorted(knots);
    var mk := FindModifiedKnot(sorted);
    b := BSplineBasis(degree, sorted, mk);
  }

  /** Closed form of the `i`-th generated knot: the number of increments before index `i`. */
  function GeneratedKnot(clamped: bool, knotsRequired: nat, degree: nat, i: nat): real {
    if clamped then Max(0, Min(i, knotsRequired - 1 - degree) - degree) as real else i as real
  }

  /**
   * `generate_knot_vector(clamped, knots_required, degree)`: pushes `x` and increments it
   * except, when clamped, for the first `degree` and the last `degree + 1` indices.
   * `knots_required - 1 - degree` is only evaluated once `i >= degree`, so it never wraps.
   */
  method GenerateKnotVector(clamped: bool, knotsRequired: nat, degree: nat) returns (knots: seq<real>)
    ensures |knots| == knotsRequired
    ensures forall i :: 0 <= i < knotsRequired ==> knots[i] == GeneratedKnot(clamped, knotsRequired, degree, i)
  {
    knots := [];
    var x := 0.0;
    for i := 0 to knotsRequired
      invariant |knots| == i
      invariant forall m :: 0 <= m < i ==> knots[m] == GeneratedKnot(clamped, knotsRequired, degree, m)
      invariant x == GeneratedKnot(clamped, knotsRequired, degree, i)
    {
      knots := knots + [x];
      if !(clamped && i < degree) && !(clamped && i >= knotsRequired - 1 - degree) {
        x := x + 1.0;
      }
    }
  }

  /** A generated knot vector starts at 0 and climbs in steps of 0 or 1, so it is sorted. */
  lemma GeneratedKnotSteps(knots: seq<real>, clamped: bool, knotsRequired: nat, degree: nat)
    requires |knots| == knotsRequired
    requires forall i :: 0 <= i < knotsRequired ==> knots[i] == GeneratedKnot(clamped, knotsRequired, degree, i)
    ensures knotsRequired > 0 ==> knots[0] == 0.0
    ensures forall i :: 0 <= i < knotsRequired - 1 ==>
              knots[i + 1] == knots[i] || knots[i + 1] == knots[i] + 1.0
    ensures Sorted(knots)
  {
  }

  /**
   * Unclamped, the knots are `0, 1, 2, ...`; clamped, they have plateaus of `degree + 1`
   * equal knots at both ends and climb by exactly 1 in between.
   */
  lemma GeneratedKnotPlateaus(knots: seq<real>, clamped: bool, knotsRequired: nat, degree: nat)
    requires |knots| == knotsRequired
    requires forall i :: 0 <= i < knotsRequired ==> knots[i] == GeneratedKnot(clamped, knotsRequired, degree, i)
    ensures !clamped ==> forall i :: 0 <= i < knotsRequired ==> knots[i] == i as real
    ensures clamped ==> forall i :: 0 <= i <= degree && i < knotsRequired ==> knots[i] == 0.0
    ensures clamped && knotsRequired >= degree + 1 ==>
              forall i :: knotsRequired - 1 - degree <= i < knotsRequired ==>
                knots[i] == knots[knotsRequired - 1]
    ensures clamped && knotsRequired >= 2 * degree + 1 ==>
              knots[knotsRequired - 1] == (knotsRequired - 1 - 2 * degree) as real
    ensures clamped ==> forall i :: degree <= i < knotsRequired - 1 - degree ==> knots[i + 1] == knots[i] + 1.0
  {
  }

  /** `clamped_uniform(degree, num_points)`. */
  method ClampedUniform(degree: nat, numPoints: nat) returns (b: BSplineBasis)
    ensures WellFormed(b) && b.degree == degree
    ensures |b.knots| == numPoints + degree + 1
    ensures forall i :: 0 <= i < |b.knots| ==> b.knots[i] == GeneratedKnot(true, numPoints + degree + 1, degree, i)
    ensures forall i :: 0 <= i <= degree ==> b.knots[i] == 0.0
    ensures forall i :: degree <= i < numPoints ==> b.knots[i + 1] == b.knots[i] + 1.0
    ensures forall i :: numPoints <= i < |b.knots| ==> b.knots[i] == b.knots[|b.knots| - 1]
    ensures b.modifiedKnot == if numPoints > degree then numPoints - 1 else 0
  {
    var knots := GenerateKnotVector(true, numPoints + degree + 1, degree);
    ClampedModifiedKnot(knots, degree, numPoints);
    GeneratedKnotPlateaus(knots, true, numPoints + degree + 1, degree);
    var mk := FindModifiedKnot(knots);
    ModifiedKnotUnique(knots, mk, if numPoints > degree then numPoints - 1 else 0);
    b := BSplineBasis(degree, knots, mk);
  }

  /** In a clamped generated knot vector the last increase is the one into the end plateau. */
  lemma ClampedModifiedKnot(knots: seq<real>, degree: nat, numPoints: nat)
    requires |knots| == numPoints + degree + 1
    requires forall i :: 0 <= i < |knots| ==> knots[i] == GeneratedKnot(true, numPoints + degree + 1, degree, i)
    ensures Sorted(knots)
    ensures IsModifiedKnot(knots, if numPoints > degree then numPoints - 1 else 0)
  {
    GeneratedKnotSteps(knots, true, numPoints + degree + 1, degree);
    GeneratedKnotPlateaus(knots, true, numPoints + degree + 1, degree);
    if numPoints > degree {
      assert knots[numPoints - 1] < knots[numPoints];
    } else {
      assert !HasIncrease(knots);
    }
  }

  /** `knot_domain()`. */
  function KnotDomain(b: BSplineBasis): (d: (real, real))
    requires b.degree < |b.knots|
    ensures Sorted(b.knots) && 2 * b.degree < |b.knots| ==> d.0 <= d.1
    ensures Sorted(b.knots) ==> b.knots[0] <= d.0 && d.1 <= b.knots[|b.knots| - 1]
  {
    (b.knots[b.degree], b.knots[|b.knots| - 1 - b.degree])
  }

  /**
   * The Greville abscissa of basis function `i`: the mean of `knots[i + 1 ..= i + degree]`,
   * which on sorted knots lies between the first and the last knot it averages.
   */
  function Greville(knots: seq<real>, degree: nat, i: nat): (g: real)
    requires degree > 0 && i + degree < |knots|
    ensures Sorted(knots) ==> knots[i + 1] <= g <= knots[i + degree]
  {
    var w := knots[i + 1..i + degree + 1];
    if Sorted(knots) then
      assert forall k :: 0 <= k < |w| ==> w[k] == knots[i + 1 + k];
      MeanBounds(w, degree as real, knots[i + 1], knots[i + degree]);
      Sum(w) / degree as real
    else
      Sum(w) / degree as real
  }

  /**
   * The abscissae `greville_abscissa` keeps among the first `m`: those inside the knot
   * domain. For degree 0 every value is `0.0 / 0.0`, a NaN that fails both comparisons.
   */
  function GrevilleFilter(knots: seq<real>, degree: nat, m: nat): (r: seq<real>)
    requires degree + m < |knots|
    ensures |r| <= m
    ensures forall k :: 0 <= k < |r| ==> knots[degree] <= r[k] <= knots[|knots| - 1 - degree]
  {
    if m == 0 then
      []
    else
      var prev := GrevilleFilter(knots, degree, m - 1);
      if degree > 0 && knots[degree] <= Greville(knots, degree, m - 1) <= knots[|knots| - 1 - degree] then
        prev + [Greville(knots, degree, m - 1)]
      else
        prev
  }

  /** `greville_abscissa()`. */
  method GrevilleAbscissa(b: BSplineBasis) returns (abscissa: seq<real>)
    requires b.degree < |b.knots|
    ensures abscissa == GrevilleFilter(b.knots, b.degree, |b.knots| - b.degree - 1)
  {
    var numAbscissa := |b.knots| - b.degree - 1;
    abscissa := [];
    var domain := KnotDomain(b);
    for i := 0 to numAbscissa
      invariant abscissa == GrevilleFilter(b.knots, b.degree, i)
    {
      if b.degree > 0 {
        var g := Sum(b.knots[i + 1..i + b.degree + 1]) / b.degree as real;
        assert g == Greville(b.knots, b.degree, i);
        if g >= domain.0 && g <= domain.1 {
          abscissa := abscissa + [g];
        }
      }
    }
  }

  /** On sorted knots the abscissae grow with the index. */
  lemma GrevilleMonotone(knots: seq<real>, degree: nat, i: nat)
    requires Sorted(knots) && degree > 0 && i + 1 + degree < |knots|
    ensures Greville(knots, degree, i) <= Greville(knots, degree, i + 1)
  {
    SumMonotone(knots[i + 1..i + degree + 1], knots[i + 2..i + degree + 2]);
    QuotientMonotone(Sum(knots[i + 1..i + degree + 1]), Sum(knots[i + 2..i + degree + 2]), degree as real);
  }

  lemma QuotientMonotone(a: real, b: real, d: real)
    requires a <= b && d > 0.0
    ensures a / d <= b / d
  {
    assert b / d - a / d == (b - a) / d;
  }

  /** Every abscissa kept among the first `m` is at most `v` when all `m` candidates are. */
  lemma {:induction false} GrevilleFilterBelow(knots: seq<real>, degree: nat, m: nat, v: real)
    requires degree > 0 && degree + m < |knots|
    requires forall i :: 0 <= i < m ==> Greville(knots, degree, i) <= v
    ensures forall k :: 0 <= k < |GrevilleFilter(knots, degree, m)| ==> GrevilleFilter(knots, degree, m)[k] <= v
  {
    if m > 0 {
      GrevilleFilterBelow(knots, degree, m - 1, v);
    }
  }

  /** `greville_abscissa` returns its values in non-decreasing order on sorted knots. */
  lemma {:induction false} GrevilleSorted(knots: seq<real>, degree: nat, m: nat)
    requires Sorted(knots) && degree + m < |knots|
    ensures Sorted(GrevilleFilter(knots, degree, m))
  {
    if m > 0 {
      GrevilleSorted(knots, degree, m - 1);
      var prev := GrevilleFilter(knots, degree, m - 1);
      if degree > 0 {
        forall i | 0 <= i < m - 1
          ensures Greville(knots, degree, i) <= Greville(knots, degree, m - 1)
        {
          GrevilleUpTo(knots, degree, i, m - 1);
        }
        GrevilleFilterBelow(knots, degree, m - 1, Greville(knots, degree, m - 1));
        SortedAppend(prev, Greville(knots, degree, m - 1));
      }
    }
  }

  lemma {:induction false} GrevilleUpTo(knots: seq<real>, degree: nat, i: nat, j: nat)
    requires Sorted(knots) && degree > 0 && i <= j && j + degree < |knots|
    ensures Greville(knots, degree, i) <= Greville(knots, degree, j)
    decreases j - i
  {
    if i < j {
      GrevilleMonotone(knots, degree, i);
      GrevilleUpTo(knots, degree, i + 1, j);
    }
  }

  /** Every window of a clamped, sorted knot vector averages inside the knot domain. */
  lemma GrevilleInDomain(knots: seq<real>, degree: nat, i: nat)
    requires Sorted(knots) && degree > 0 && i + degree + 1 < |knots|
    requires knots[1] == knots[degree] && knots[|knots| - 2] == knots[|knots| - 1 - degree]
    ensures knots[degree] <= Greville(knots, degree, i) <= knots[|knots| - 1 - degree]
  {
  }

  /**
   * With both end knots of multiplicity `degree`, no abscissa falls outside the domain:
   * the filter keeps all `|knots| - degree - 1` of them, in index order.
   */
  lemma {:induction false} GrevilleClampedComplete(knots: seq<real>, degree: nat, m: nat)
    requires Sorted(knots) && degree > 0 && degree + m < |knots|
    requires knots[1] == knots[degree] && knots[|knots| - 2] == knots[|knots| - 1 - degree]
    ensures |GrevilleFilter(knots, degree, m)| == m
    ensures forall i :: 0 <= i < m ==> GrevilleFilter(knots, degree, m)[i] == Greville(knots, degree, i)
  {
    if m > 0 {
      GrevilleClampedComplete(knots, degree, m - 1);
      GrevilleInDomain(knots, degree, m - 1);
    }
  }

  /** The coefficient of `evaluate_basis`: a quotient whose non-finite value (zero denominator) becomes 0. */
  function Ratio(num: real, den: real): real {
    if den == 0.0 then 0.0 else num / den
  }

  lemma RatioNonNegative(num: real, den: real)
    ensures num >= 0.0 && den >= 0.0 ==> Ratio(num, den) >= 0.0
  {
    if num >= 0.0 && den > 0.0 {
      assert Ratio(num, den) * den == num;
    }
  }

  /** `a` of `evaluate_basis`: `(t - knots[i]) / (knots[i + k] - knots[i])`. */
  function LeftCoefficient(b: BSplineBasis, t: real, i: nat, k: nat): real
    requires i + k < |b.knots|
  {
    Ratio(t - b.knots[i], b.knots[i + k] - b.knots[i])
  }

  /** `b` of `evaluate_basis`: `(knots[i + k + 1] - t) / (knots[i + k + 1] - knots[i + 1])`. */
  function RightCoefficient(b: BSplineBasis, t: real, i: nat, k: nat): real
    requires i + k + 1 < |b.knots|
  {
    Ratio(b.knots[i + k + 1] - t, b.knots[i + k + 1] - b.knots[i + 1])
  }

  /** One weighted term `coefficient * value` of the recursion. */
  function Term(coefficient: real, value: real): real {
    coefficient * value
  }

  /** `a * c + b * d` of `evaluate_basis`: the two lower-degree values weighted by their coefficients. */
  function Blend(a: real, l: real, c: real, r: real): real {
    Term(a, l) + Term(c, r)
  }

  /**
   * `evaluate_basis(t, i, k)`: the Cox-de Boor recursion for basis function `i` of degree `k`.
   * Degree 0 is the indicator of `[knots[i], knots[i + 1])`, closed on the right for the
   * modified knot.
   */
  function EvaluateBasis(b: BSplineBasis, t: real, i: nat, k: nat): (v: real)
    requires i + k + 1 < |b.knots|
    ensures t < b.knots[i] || b.knots[i + k + 1] < t ==> v == 0.0
    decreases k
  {
    if k == 0 then
      if t >= b.knots[i] then
        if i == b.modifiedKnot && t <= b.knots[i + 1] then 1.0
        else if t < b.knots[i + 1] then 1.0
        else 0.0
      else
        0.0
    else if t >= b.knots[i] && t <= b.knots[i + k + 1] then
      Blend(LeftCoefficient(b, t, i, k), EvaluateBasis(b, t, i, k - 1),
            RightCoefficient(b, t, i, k), EvaluateBasis(b, t, i + 1, k - 1))
    else
      0.0
  }

  /** On sorted knots every basis function is non-negative. */
  lemma {:induction false} BasisNonNegative(b: BSplineBasis, t: real, i: nat, k: nat)
    requires Sorted(b.knots) && i + k + 1 < |b.knots|
    ensures EvaluateBasis(b, t, i, k) >= 0.0
    decreases k
  {
    if k > 0 && t >= b.knots[i] && t <= b.knots[i + k + 1] {
      BasisNonNegative(b, t, i, k - 1);
      BasisNonNegative(b, t, i + 1, k - 1);
      RatioNonNegative(t - b.knots[i], b.knots[i + k] - b.knots[i]);
      RatioNonNegative(b.knots[i + k + 1] - t, b.knots[i + k + 1] - b.knots[i + 1]);
      var a, l := LeftCoefficient(b, t, i, k), EvaluateBasis(b, t, i, k - 1);
      var c, r := RightCoefficient(b, t, i, k), EvaluateBasis(b, t, i + 1, k - 1);
      Geometry.ProductNonNegative(a, l, a * l);
      Geometry.ProductNonNegative(c, r, c * r);
    }
  }

  /** `eval(t, fcn)`: basis function `fcn` of the basis degree, for `t` in the knot domain. */
  function Eval(b: BSplineBasis, t: real, fcn: nat): (r: real)
    requires b.degree < |b.knots| && KnotDomain(b).0 <= t <= KnotDomain(b).1
    requires fcn + b.degree + 1 < |b.knots|
    ensures t < b.knots[fcn] || b.knots[fcn + b.degree + 1] < t ==> r == 0.0
    ensures Sorted(b.knots) ==> r >= 0.0
  {
    if Sorted(b.knots) then
      BasisNonNegative(b, t, fcn, b.degree);
      EvaluateBasis(b, t, fcn, b.degree)
    else
      EvaluateBasis(b, t, fcn, b.degree)
  }

  /** Degree 0 is an indicator: 1 on `[knots[i], knots[i + 1])`, and at `knots[i + 1]` for the modified knot. */
  lemma Degree0Indicator(b: BSplineBasis, t: real, i: nat)
    requires i + 1 < |b.knots|
    ensures EvaluateBasis(b, t, i, 0) == 1.0 <==>
              b.knots[i] <= t < b.knots[i + 1] || (i == b.modifiedKnot && b.knots[i] <= t <= b.knots[i + 1])
    ensures EvaluateBasis(b, t, i, 0) == 0.0 || EvaluateBasis(b, t, i, 0) == 1.0
  {
  }

  /** A basis function whose support has zero width vanishes everywhere. */
  lemma {:induction false} ZeroWidthVanishes(b: BSplineBasis, t: real, i: nat, k: nat)
    requires WellFormed(b) && HasIncrease(b.knots) && i + k + 1 < |b.knots|
    requires b.knots[i] == b.knots[i + k + 1]
    ensures EvaluateBasis(b, t, i, k) == 0.0
    decreases k
  {
    if k > 0 {
      ZeroWidthVanishes(b, t, i, k - 1);
      ZeroWidthVanishes(b, t, i + 1, k - 1);
    }
  }

  /** `knots[i] <= t <= knots[i + k + 1]` of `evaluate_basis` only skips terms that are 0 anyway. */
  lemma Recurrence(b: BSplineBasis, t: real, i: nat, k: nat)
    requires Sorted(b.knots) && k >= 1 && i + k + 1 < |b.knots|
    ensures EvaluateBasis(b, t, i, k) ==
              Blend(LeftCoefficient(b, t, i, k), EvaluateBasis(b, t, i, k - 1),
                    RightCoefficient(b, t, i, k), EvaluateBasis(b, t, i + 1, k - 1))
  {
    if t >= b.knots[i] && t <= b.knots[i + k + 1] {
      RecurrenceInside(b, t, i, k);
    } else {
      RecurrenceOutside(b, t, i, k);
    }
  }

  lemma RecurrenceInside(b: BSplineBasis, t: real, i: nat, k: nat)
    requires k >= 1 && i + k + 1 < |b.knots| && b.knots[i] <= t <= b.knots[i + k + 1]
    ensures EvaluateBasis(b, t, i, k) ==
              Blend(LeftCoefficient(b, t, i, k), EvaluateBasis(b, t, i, k - 1),
                    RightCoefficient(b, t, i, k), EvaluateBasis(b, t, i + 1, k - 1))
  {
  }

  lemma RecurrenceOutside(b: BSplineBasis, t: real, i: nat, k: nat)
    requires k >= 1 && i + k + 1 < |b.knots| && !(b.knots[i] <= t <= b.knots[i + k + 1])
    requires b.knots[i] <= b.knots[i + 1] && b.knots[i + k] <= b.knots[i + k + 1]
    ensures EvaluateBasis(b, t, i, k) ==
              Blend(LeftCoefficient(b, t, i, k), EvaluateBasis(b, t, i, k - 1),
                    RightCoefficient(b, t, i, k), EvaluateBasis(b, t, i + 1, k - 1))
  {
    ZeroProducts(LeftCoefficient(b, t, i, k), RightCoefficient(b, t, i, k),
                 EvaluateBasis(b, t, i, k - 1), EvaluateBasis(b, t, i + 1, k - 1));
  }

  lemma ZeroProducts(a: real, c: real, l: real, r: real)
    requires l == 0.0 && r == 0.0
    ensures Blend(a, l, c, r) == 0.0
  {
  }

  /** `BasisSum(b, t, k, lo, hi)` is the sum of the degree-`k` basis functions `lo .. hi - 1` at `t`. */
  function BasisSum(b: BSplineBasis, t: real, k: nat, lo: nat, hi: nat): real
    requires lo <= hi && hi + k < |b.knots|
    decreases hi - lo
  {
    if lo == hi then 0.0 else BasisSum(b, t, k, lo, hi - 1) + EvaluateBasis(b, t, hi - 1, k)
  }

  lemma {:induction false} SumSplit(b: BSplineBasis, t: real, k: nat, lo: nat, mid: nat, hi: nat)
    requires lo <= mid <= hi && hi + k < |b.knots|
    ensures BasisSum(b, t, k, lo, hi) == BasisSum(b, t, k, lo, mid) + BasisSum(b, t, k, mid, hi)
    decreases hi - mid
  {
    if mid < hi {
      SumSplit(b, t, k, lo, mid, hi - 1);
    }
  }

  lemma {:induction false} SumOfZeros(b: BSplineBasis, t: real, k: nat, lo: nat, hi: nat)
    requires lo <= hi && hi + k < |b.knots|
    requires forall i :: lo <= i < hi ==> EvaluateBasis(b, t, i, k) == 0.0
    ensures BasisSum(b, t, k, lo, hi) == 0.0
    decreases hi - lo
  {
    if lo < hi {
      SumOfZeros(b, t, k, lo, hi - 1);
    }
  }

  /** After the modified knot all knots equal the last one. */
  lemma {:induction false} PlateauAfterModifiedKnot(b: BSplineBasis, i: nat)
    requires WellFormed(b) && HasIncrease(b.knots) && b.modifiedKnot < i < |b.knots|
    ensures b.knots[i] == b.knots[|b.knots| - 1]
    decreases |b.knots| - i
  {
    if i < |b.knots| - 1 {
      assert !(b.knots[i] < b.knots[i + 1]);
      PlateauAfterModifiedKnot(b, i + 1);
    }
  }

  /** A parameter below the last knot lies in some half-open knot interval. */
  lemma {:induction false} IntervalContaining(knots: seq<real>, t: real) returns (j: nat)
    requires |knots| >= 1 && knots[0] <= t < knots[|knots| - 1]
    ensures j + 1 < |knots| && knots[j] <= t < knots[j + 1]
    decreases |knots|
  {
    if t < knots[1] {
      j := 0;
    } else {
      var j' := IntervalContaining(knots[1..], t);
      j := j' + 1;
    }
  }

  /** Degree 0: exactly one indicator is 1 at every `t` in `[knots[0], knots[|knots| - 1]]`. */
  lemma Degree0PartitionOfUnity(b: BSplineBasis, t: real)
    requires WellFormed(b) && HasIncrease(b.knots)
    requires b.knots[0] <= t <= b.knots[|b.knots| - 1]
    ensures BasisSum(b, t, 0, 0, |b.knots| - 1) == 1.0
  {
    var m := |b.knots| - 1;
    var j: nat;
    if t < b.knots[m] {
      j := InteriorIndicator(b, t);
    } else {
      j := EndIndicator(b, t);
    }
    SumSplit(b, t, 0, 0, j, m);
    SumSplit(b, t, 0, j, j + 1, m);
    SumOfZeros(b, t, 0, 0, j);
    SumOfZeros(b, t, 0, j + 1, m);
  }

  /** Below the last knot only the indicator of the interval containing `t` is 1. */
  lemma InteriorIndicator(b: BSplineBasis, t: real) returns (j: nat)
    requires WellFormed(b) && b.knots[0] <= t < b.knots[|b.knots| - 1]
    ensures j < |b.knots| - 1 && EvaluateBasis(b, t, j, 0) == 1.0
    ensures forall i :: 0 <= i < |b.knots| - 1 && i != j ==> EvaluateBasis(b, t, i, 0) == 0.0
  {
    j := IntervalContaining(b.knots, t);
    forall i | 0 <= i < |b.knots| - 1 && i != j
      ensures EvaluateBasis(b, t, i, 0) == 0.0
    {
      if i < j {
        assert b.knots[i + 1] <= b.knots[j];
      } else {
        assert b.knots[j + 1] <= b.knots[i];
      }
    }
  }

  /** At the last knot only the indicator of the modified knot is 1. */
  lemma EndIndicator(b: BSplineBasis, t: real) returns (j: nat)
    requires WellFormed(b) && HasIncrease(b.knots) && t == b.knots[|b.knots| - 1]
    ensures j < |b.knots| - 1 && EvaluateBasis(b, t, j, 0) == 1.0
    ensures forall i :: 0 <= i < |b.knots| - 1 && i != j ==> EvaluateBasis(b, t, i, 0) == 0.0
  {
    j := b.modifiedKnot;
    PlateauAfterModifiedKnot(b, j + 1);
    forall i | 0 <= i < |b.knots| - 1 && i != j
      ensures EvaluateBasis(b, t, i, 0) == 0.0
    {
      assert b.knots[i + 1] <= b.knots[|b.knots| - 1];
    }
  }

  /** The two coefficients meeting at function `m` of degree `k - 1` sum to 1 unless it vanishes. */
  lemma InteriorWeights(b: BSplineBasis, t: real, m: nat, k: nat)
    requires WellFormed(b) && HasIncrease(b.knots) && k >= 1 && 1 <= m && m + k < |b.knots|
    ensures Term(LeftCoefficient(b, t, m, k), EvaluateBasis(b, t, m, k - 1)) +
            Term(RightCoefficient(b, t, m - 1, k), EvaluateBasis(b, t, m, k - 1)) ==
            EvaluateBasis(b, t, m, k - 1)
  {
    var d := b.knots[m + k] - b.knots[m];
    if d == 0.0 {
      ZeroWidthVanishes(b, t, m, k - 1);
      TermsOfZero(LeftCoefficient(b, t, m, k), RightCoefficient(b, t, m - 1, k), EvaluateBasis(b, t, m, k - 1));
    } else {
      CoefficientsComplement(b, t, m, k);
      TermsDistribute(LeftCoefficient(b, t, m, k), RightCoefficient(b, t, m - 1, k), EvaluateBasis(b, t, m, k - 1));
    }
  }

  /** Where the support of function `m` of degree `k - 1` has width, its two coefficients sum to 1. */
  lemma CoefficientsComplement(b: BSplineBasis, t: real, m: nat, k: nat)
    requires k >= 1 && 1 <= m && m + k < |b.knots| && b.knots[m + k] != b.knots[m]
    ensures LeftCoefficient(b, t, m, k) + RightCoefficient(b, t, m - 1, k) == 1.0
  {
    var d := b.knots[m + k] - b.knots[m];
    assert LeftCoefficient(b, t, m, k) == (t - b.knots[m]) / d;
    assert RightCoefficient(b, t, m - 1, k) == (b.knots[m + k] - t) / d;
    QuotientsComplement(t - b.knots[m], b.knots[m + k] - t, d);
  }

  lemma TermsOfZero(a: real, c: real, v: real)
    requires v == 0.0
    ensures Term(a, v) + Term(c, v) == v
  {
  }

  lemma TermsDistribute(a: real, c: real, v: real)
    requires a + c == 1.0
    ensures Term(a, v) + Term(c, v) == v
  {
    assert a * v + c * v == (a + c) * v;
  }

  lemma QuotientsComplement(x: real, y: real, d: real)
    requires d != 0.0 && x + y == d
    ensures x / d + y / d == 1.0
  {
    assert x / d + y / d == (x + y) / d;
  }

  /** What level `k` loses against level `k - 1` at the left end: `(1 - a) * N(0, k - 1)`. */
  function LeftLoss(b: BSplineBasis, t: real, k: nat): real
    requires 1 <= k < |b.knots|
  {
    Term(1.0 - LeftCoefficient(b, t, 0, k), EvaluateBasis(b, t, 0, k - 1))
  }

  /** What the last of the first `m` level-`k` functions takes from function `m` of level `k - 1`. */
  function RightGain(b: BSplineBasis, t: real, k: nat, m: nat): real
    requires 1 <= k && 1 <= m && m + k < |b.knots|
  {
    Term(RightCoefficient(b, t, m - 1, k), EvaluateBasis(b, t, m, k - 1))
  }

  /**
   * The two facts that tie level `k` to level `k - 1` for every function: the recurrence, and
   * the coefficients meeting at a function summing to 1 wherever that function is non-zero.
   */
  predicate LevelsTied(b: BSplineBasis, t: real, k: nat)
    requires 1 <= k < |b.knots|
  {
    (forall i: nat {:trigger EvaluateBasis(b, t, i, k)} | i + k + 1 < |b.knots| ::
       EvaluateBasis(b, t, i, k) ==
       Blend(LeftCoefficient(b, t, i, k), EvaluateBasis(b, t, i, k - 1),
             RightCoefficient(b, t, i, k), EvaluateBasis(b, t, i + 1, k - 1))) &&
    (forall m: nat {:trigger LeftCoefficient(b, t, m, k)} | 1 <= m && m + k < |b.knots| ::
       Term(LeftCoefficient(b, t, m, k), EvaluateBasis(b, t, m, k - 1)) +
       Term(RightCoefficient(b, t, m - 1, k), EvaluateBasis(b, t, m, k - 1)) ==
       EvaluateBasis(b, t, m, k - 1))
  }

  lemma TieLevels(b: BSplineBasis, t: real, k: nat)
    requires WellFormed(b) && HasIncrease(b.knots) && 1 <= k < |b.knots|
    ensures LevelsTied(b, t, k)
  {
    forall i: nat | i + k + 1 < |b.knots| {
      Recurrence(b, t, i, k);
    }
    forall m: nat | 1 <= m && m + k < |b.knots| {
      InteriorWeights(b, t, m, k);
    }
  }

  /** The partial sums of level `k` against those of level `k - 1`, by the recurrence. */
  lemma {:induction false} PartialSums(b: BSplineBasis, t: real, k: nat, m: nat)
    requires 1 <= k && 1 <= m && m + k < |b.knots| && LevelsTied(b, t, k)
    ensures BasisSum(b, t, k, 0, m) == BasisSum(b, t, k - 1, 0, m) - LeftLoss(b, t, k) + RightGain(b, t, k, m)
    decreases m
  {
    assert EvaluateBasis(b, t, m - 1, k) ==
           Blend(LeftCoefficient(b, t, m - 1, k), EvaluateBasis(b, t, m - 1, k - 1),
                 RightCoefficient(b, t, m - 1, k), EvaluateBasis(b, t, m, k - 1));
    if m == 1 {
      LossComplement(LeftCoefficient(b, t, 0, k), EvaluateBasis(b, t, 0, k - 1));
    } else {
      PartialSums(b, t, k, m - 1);
      assert Term(LeftCoefficient(b, t, m - 1, k), EvaluateBasis(b, t, m - 1, k - 1)) + RightGain(b, t, k, m - 1) ==
             EvaluateBasis(b, t, m - 1, k - 1);
    }
  }

  lemma LossComplement(a: real, v: real)
    ensures Term(a, v) == v - Term(1.0 - a, v)
  {
    assert (1.0 - a) * v == v - a * v;
  }

  /** Level `k` sums to the same as level `k - 1` inside the degree-`k` domain. */
  lemma LevelStep(b: BSplineBasis, t: real, k: nat)
    requires WellFormed(b) && HasIncrease(b.knots) && k >= 1 && 2 * k < |b.knots|
    requires b.knots[k] <= t <= b.knots[|b.knots| - 1 - k]
    ensures BasisSum(b, t, k, 0, |b.knots| - 1 - k) == BasisSum(b, t, k - 1, 0, |b.knots| - k)
  {
    var n := |b.knots| - 1 - k;
    LevelSums(b, t, k);
    NoLeftLoss(b, t, k);
    FullRightGain(b, t, k);
  }

  /** All `|knots| - 1 - k` functions of level `k` against the first `|knots| - 1 - k` of level `k - 1`. */
  lemma LevelSums(b: BSplineBasis, t: real, k: nat)
    requires WellFormed(b) && HasIncrease(b.knots) && k >= 1 && 2 * k < |b.knots|
    ensures BasisSum(b, t, k, 0, |b.knots| - 1 - k) ==
            BasisSum(b, t, k - 1, 0, |b.knots| - 1 - k) - LeftLoss(b, t, k) + RightGain(b, t, k, |b.knots| - 1 - k)
  {
    TieLevels(b, t, k);
    PartialSums(b, t, k, |b.knots| - 1 - k);
  }

  /** At the left end of the degree-`k` domain level `k` loses nothing. */
  lemma NoLeftLoss(b: BSplineBasis, t: real, k: nat)
    requires WellFormed(b) && HasIncrease(b.knots) && k >= 1 && 2 * k < |b.knots|
    requires b.knots[k] <= t
    ensures LeftLoss(b, t, k) == 0.0
  {
    var first := EvaluateBasis(b, t, 0, k - 1);
    if b.knots[k] == b.knots[0] {
      ZeroWidthVanishes(b, t, 0, k - 1);
      TermUnit(1.0 - LeftCoefficient(b, t, 0, k), first);
    } else if first == 0.0 {
      TermUnit(1.0 - LeftCoefficient(b, t, 0, k), first);
    } else {
      var d := b.knots[k] - b.knots[0];
      assert t == b.knots[k];
      assert LeftCoefficient(b, t, 0, k) == d / d;
      Geometry.QuotientSelf(d);
      TermUnit(1.0 - LeftCoefficient(b, t, 0, k), first);
    }
  }

  /** At the right end of the degree-`k` domain the last function takes all of function `n` of level `k - 1`. */
  lemma FullRightGain(b: BSplineBasis, t: real, k: nat)
    requires WellFormed(b) && HasIncrease(b.knots) && k >= 1 && 2 * k < |b.knots|
    requires t <= b.knots[|b.knots| - 1 - k]
    ensures RightGain(b, t, k, |b.knots| - 1 - k) == EvaluateBasis(b, t, |b.knots| - 1 - k, k - 1)
  {
    var last := |b.knots| - 1;
    var n := last - k;
    var final := EvaluateBasis(b, t, n, k - 1);
    if b.knots[last] == b.knots[n] {
      ZeroWidthVanishes(b, t, n, k - 1);
      TermUnit(RightCoefficient(b, t, n - 1, k), final);
    } else if final == 0.0 {
      TermUnit(RightCoefficient(b, t, n - 1, k), final);
    } else {
      var d := b.knots[last] - b.knots[n];
      assert t == b.knots[n];
      assert RightCoefficient(b, t, n - 1, k) == d / d;
      Geometry.QuotientSelf(d);
      TermUnit(RightCoefficient(b, t, n - 1, k), final);
    }
  }

  /** A term with value 0 or coefficient 0 vanishes; coefficient 1 keeps the value. */
  lemma TermUnit(a: real, v: real)
    ensures v == 0.0 || a == 0.0 ==> Term(a, v) == 0.0
    ensures a == 1.0 ==> Term(a, v) == v
  {
  }

  /**
   * Partition of unity: inside the degree-`k` domain the `|knots| - 1 - k` basis functions
   * of degree `k` sum to 1, the modified knot closing the last interval on the right.
   */
  lemma {:induction false} PartitionOfUnity(b: BSplineBasis, t: real, k: nat)
    requires WellFormed(b) && HasIncrease(b.knots) && 2 * k < |b.knots|
    requires b.knots[k] <= t <= b.knots[|b.knots| - 1 - k]
    ensures BasisSum(b, t, k, 0, |b.knots| - 1 - k) == 1.0
  {
    if k == 0 {
      Degree0PartitionOfUnity(b, t);
    } else {
      PartitionOfUnity(b, t, k - 1);
      LevelStep(b, t, k);
    }
  }
}
