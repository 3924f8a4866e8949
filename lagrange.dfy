/**
 * Lagrange coefficients and interpolation over the scalar field.
 *
 * For points x_0, ..., x_{n-1} and a target x, the coefficient of point j is
 *   L_j(x) = product over m with x_m != x_j of (x_m - x) / (x_m - x_j),
 * the product the library accumulates one factor at a time. Points equal in
 * value to x_j contribute no factor, so no division by zero can arise.
 *
 * The two facts threshold reconstruction rests on are proved here:
 *   - `KroneckerDelta`: at a point x_k, L_j is 1 if x_j == x_k and 0 otherwise;
 *   - `InterpolationExact`: for pairwise distinct points and a polynomial f
 *     with at most n coefficients, sum_j f(x_j)·L_j(x) == f(x).
 */
module Lagrange {
  import opened Field
  import opened Polynomial

  /** The factor point x_m contributes to L_j(x); 1 when x_m == x_j. */
  function Factor(xm: Scalar, x: Scalar, xj: Scalar): Scalar
  {
    if xm != xj then (xm - x) / (xm - xj) else 1.0
  }

  /** The product of the factors contributed by `xs[..m]`. */
  function PartialProduct(xs: seq<Scalar>, x: Scalar, xj: Scalar, m: nat): Scalar
    requires m <= |xs|
  {
    if m == 0 then 1.0 else PartialProduct(xs, x, xj, m - 1) * Factor(xs[m - 1], x, xj)
  }

  /** L_j(x) for the points `xs`. */
  function Coeff(xs: seq<Scalar>, x: Scalar, j: nat): Scalar
    requires j < |xs|
  {
    PartialProduct(xs, x, xs[j], |xs|)
  }

  /** All coefficients L_0(x), ..., L_{n-1}(x), in point order. */
  function Coeffs(xs: seq<Scalar>, x: Scalar): (cs: seq<Scalar>)
    ensures |cs| == |xs|
    ensures forall j :: 0 <= j < |xs| ==> cs[j] == Coeff(xs, x, j)
  {
    seq(|xs|, j requires 0 <= j < |xs| => Coeff(xs, x, j))
  }

  /** sum_j ys[j]·L_j(x), over the pairs both sequences provide. */
  function Interpolate(xs: seq<Scalar>, ys: seq<Scalar>, x: Scalar): Scalar
  {
    Dot(ys, Coeffs(xs, x))
  }

  lemma {:induction false} PartialProductAtOwnPoint(xs: seq<Scalar>, xj: Scalar, m: nat)
    requires m <= |xs|
    ensures PartialProduct(xs, xj, xj, m) == 1.0
  {
    if m != 0 {
      PartialProductAtOwnPoint(xs, xj, m - 1);
      var xm := xs[m - 1];
      if xm != xj {
        assert (xm - xj) / (xm - xj) == 1.0;
      }
      assert Factor(xm, xj, xj) == 1.0;
    }
  }

  lemma {:induction false} PartialProductAtOtherPoint(xs: seq<Scalar>, k: nat, xj: Scalar, m: nat)
    requires k < m <= |xs|
    requires xs[k] != xj
    ensures PartialProduct(xs, xs[k], xj, m) == 0.0
  {
    if k < m - 1 {
      PartialProductAtOtherPoint(xs, k, xj, m - 1);
    } else {
      assert Factor(xs[k], xs[k], xj) == 0.0 / (xs[k] - xj) == 0.0;
    }
  }

  /**
   * At a point of the set, L_j is 1 if x_j has the same value and 0 otherwise;
   * duplicated points need no special treatment.
   */
  lemma KroneckerDelta(xs: seq<Scalar>, j: nat, k: nat)
    requires j < |xs| && k < |xs|
    ensures Coeff(xs, xs[k], j) == if xs[j] == xs[k] then 1.0 else 0.0
  {
    if xs[j] == xs[k] {
      PartialProductAtOwnPoint(xs, xs[j], |xs|);
    } else {
      PartialProductAtOtherPoint(xs, k, xs[j], |xs|);
    }
  }

  /** For pairwise distinct points, L_j(x_k) is 1 exactly when j == k. */
  lemma KroneckerDeltaDistinct(xs: seq<Scalar>, j: nat, k: nat)
    requires Distinct(xs)
    requires j < |xs| && k < |xs|
    ensures Coeff(xs, xs[k], j) == if j == k then 1.0 else 0.0
  {
    KroneckerDelta(xs, j, k);
  }

  lemma {:induction false} DotPrefixAtNode(xs: seq<Scalar>, ys: seq<Scalar>, k: nat, n: nat)
    requires Distinct(xs)
    requires n <= |xs| && n <= |ys| && k < |xs|
    ensures DotPrefix(ys, Coeffs(xs, xs[k]), n) == if k < n then ys[k] else 0.0
  {
    if n != 0 {
      DotPrefixAtNode(xs, ys, k, n - 1);
      KroneckerDeltaDistinct(xs, n - 1, k);
    }
  }

  /** Interpolating at one of the (distinct) points returns that point's value. */
  lemma InterpolateAtNode(xs: seq<Scalar>, ys: seq<Scalar>, k: nat)
    requires Distinct(xs)
    requires k < |xs| && k < |ys|
    ensures Interpolate(xs, ys, xs[k]) == ys[k]
  {
    DotPrefixAtNode(xs, ys, k, Min(|ys|, |xs|));
  }

  /** The coefficient list of the partial product, as a polynomial in x. */
  function BasisPoly(xs: seq<Scalar>, xj: Scalar, m: nat): Poly
    requires m <= |xs|
  {
    if m == 0 then [1.0]
    else if xs[m - 1] != xj then
      var d := xs[m - 1] - xj;
      MulLinear(BasisPoly(xs, xj, m - 1), xs[m - 1] / d, -1.0 / d)
    else BasisPoly(xs, xj, m - 1)
  }

  lemma {:induction false} BasisPolyEval(xs: seq<Scalar>, xj: Scalar, m: nat, x: Scalar)
    requires m <= |xs|
    ensures Eval(BasisPoly(xs, xj, m), x) == PartialProduct(xs, x, xj, m)
  {
    if m == 0 {
      assert [1.0][1..] == [];
    } else {
      BasisPolyEval(xs, xj, m - 1, x);
      if xs[m - 1] != xj {
        BasisPolyStep(xs, xj, m, x);
      }
    }
  }

  /** Multiplying by the linear factor of a point other than x_j multiplies the value by that point's factor. */
  lemma BasisPolyStep(xs: seq<Scalar>, xj: Scalar, m: nat, x: Scalar)
    requires 0 < m <= |xs| && xs[m - 1] != xj
    requires Eval(BasisPoly(xs, xj, m - 1), x) == PartialProduct(xs, x, xj, m - 1)
    ensures Eval(BasisPoly(xs, xj, m), x) == PartialProduct(xs, x, xj, m)
  {
    EvalMulLinear(BasisPoly(xs, xj, m - 1), xs[m - 1] / (xs[m - 1] - xj), -1.0 / (xs[m - 1] - xj), x);
    LinearFactor(xs[m - 1], xj, x);
  }

  /** The linear factor BasisPoly multiplies by is the point's factor. */
  lemma LinearFactor(a: Scalar, xj: Scalar, x: Scalar)
    requires a != xj
    ensures Linear(a / (a - xj), -1.0 / (a - xj), x) == Factor(a, x, xj)
  {
    var d := a - xj;
    assert (-1.0 / d) * x == -(x / d);
    assert a / d - x / d == (a - x) / d;
  }

  /** The basis polynomial of point j has at most n coefficients. */
  lemma {:induction false} BasisPolyLength(xs: seq<Scalar>, j: nat, m: nat)
    requires j < |xs| && m <= |xs|
    ensures |BasisPoly(xs, xs[j], m)| <= if j < m then m else m + 1
  {
    if m != 0 {
      BasisPolyLength(xs, j, m - 1);
    }
  }

  /** The basis polynomials L_0, ..., L_{n-1} of the points. */
  function Bases(xs: seq<Scalar>): (bs: seq<Poly>)
    ensures |bs| == |xs|
    ensures forall j :: 0 <= j < |xs| ==> bs[j] == BasisPoly(xs, xs[j], |xs|)
  {
    seq(|xs|, j requires 0 <= j < |xs| => BasisPoly(xs, xs[j], |xs|))
  }

  /** sum_{j<n} ys[j]·bs[j] as a coefficient list. */
  function Combination(ys: seq<Scalar>, bs: seq<Poly>, n: nat): Poly
    requires n <= |ys| && n <= |bs|
  {
    if n == 0 then []
    else Add(Combination(ys, bs, n - 1), Scale(ys[n - 1], bs[n - 1]))
  }

  /** The interpolating polynomial sum_{j<n} ys[j]·L_j as a coefficient list. */
  function InterpolationPoly(xs: seq<Scalar>, ys: seq<Scalar>, n: nat): Poly
    requires n <= |xs| && n <= |ys|
  {
    Combination(ys, Bases(xs), n)
  }

  lemma {:induction false} CombinationLength(ys: seq<Scalar>, bs: seq<Poly>, n: nat, bound: nat)
    requires n <= |ys| && n <= |bs|
    requires forall j :: 0 <= j < n ==> |bs[j]| <= bound
    ensures |Combination(ys, bs, n)| <= bound
  {
    if n != 0 {
      CombinationLength(ys, bs, n - 1, bound);
    }
  }

  lemma InterpolationPolyLength(xs: seq<Scalar>, ys: seq<Scalar>, n: nat)
    requires n <= |xs| && n <= |ys|
    ensures |InterpolationPoly(xs, ys, n)| <= |xs|
  {
    var bs := Bases(xs);
    forall j | 0 <= j < n
      ensures |bs[j]| <= |xs|
    {
      BasisPolyLength(xs, j, |xs|);
    }
    CombinationLength(ys, bs, n, |xs|);
  }

  /** A combination evaluates to the dot product of the weights with the values of the polynomials. */
  lemma {:induction false} CombinationEval(ys: seq<Scalar>, bs: seq<Poly>, cs: seq<Scalar>, n: nat, x: Scalar)
    requires n <= |ys| && n <= |bs| && n <= |cs|
    requires forall j :: 0 <= j < n ==> Eval(bs[j], x) == cs[j]
    ensures Eval(Combination(ys, bs, n), x) == DotPrefix(ys, cs, n)
  {
    if n != 0 {
      CombinationEval(ys, bs, cs, n - 1, x);
      EvalAddScaled(Combination(ys, bs, n - 1), ys[n - 1], bs[n - 1], x, DotPrefix(ys, cs, n - 1), cs[n - 1]);
    }
  }

  lemma InterpolationPolyEval(xs: seq<Scalar>, ys: seq<Scalar>, n: nat, x: Scalar)
    requires n <= |xs| && n <= |ys|
    ensures Eval(InterpolationPoly(xs, ys, n), x) == DotPrefix(ys, Coeffs(xs, x), n)
  {
    var bs := Bases(xs);
    var cs := Coeffs(xs, x);
    forall j | 0 <= j < n
      ensures Eval(bs[j], x) == cs[j]
    {
      BasisPolyEval(xs, xs[j], |xs|, x);
    }
    CombinationEval(ys, bs, cs, n, x);
  }

  lemma EvalAddScaled(p: Poly, c: Scalar, b: Poly, x: Scalar, v: Scalar, w: Scalar)
    requires Eval(p, x) == v && Eval(b, x) == w
    ensures Eval(Add(p, Scale(c, b)), x) == v + c * w
  {
    EvalAdd(p, Scale(c, b), x);
    EvalScale(c, b, x);
  }

  /** The interpolating polynomial minus f vanishes at every point. */
  lemma DifferenceVanishesAtNode(xs: seq<Scalar>, f: Poly, k: nat)
    requires Distinct(xs) && k < |xs|
    ensures Eval(Add(InterpolationPoly(xs, EvalAll(f, xs), |xs|), Scale(-1.0, f)), xs[k]) == 0.0
  {
    var ys := EvalAll(f, xs);
    var ip := InterpolationPoly(xs, ys, |xs|);
    InterpolationPolyEval(xs, ys, |xs|, xs[k]);
    InterpolateAtNode(xs, ys, k);
    EvalSubtractSame(ip, f, xs[k], ys[k]);
  }

  /** Two polynomials with the same value at x have a difference that vanishes there. */
  lemma EvalSubtractSame(p: Poly, b: Poly, x: Scalar, v: Scalar)
    requires Eval(p, x) == v && Eval(b, x) == v
    ensures Eval(Add(p, Scale(-1.0, b)), x) == 0.0
  {
    EvalAddScaled(p, -1.0, b, x, v, v);
  }

  /**
   * Exactness: for pairwise distinct points and a polynomial f with at most as
   * many coefficients as there are points, interpolating the values of f at the
   * points reproduces f at every target x.
   */
  lemma {:induction false} InterpolationExact(xs: seq<Scalar>, f: Poly, x: Scalar)
    requires Distinct(xs)
    requires |f| <= |xs|
    ensures Interpolate(xs, EvalAll(f, xs), x) == Eval(f, x)
  {
    var ys := EvalAll(f, xs);
    var ip := InterpolationPoly(xs, ys, |xs|);
    DifferenceVanishesEverywhere(xs, f, x);
    InterpolateIsPolyValue(xs, ys, x);
    EvalAddScaled(ip, -1.0, f, x, Eval(ip, x), Eval(f, x));
    DifferenceZero(Interpolate(xs, ys, x), Eval(ip, x), Eval(f, x), Eval(Add(ip, Scale(-1.0, f)), x), -1.0);
  }

  /** Interpolating is evaluating the interpolating polynomial. */
  lemma InterpolateIsPolyValue(xs: seq<Scalar>, ys: seq<Scalar>, x: Scalar)
    requires |ys| == |xs|
    ensures Interpolate(xs, ys, x) == Eval(InterpolationPoly(xs, ys, |xs|), x)
  {
    InterpolationPolyEval(xs, ys, |xs|, x);
  }

  /** On plain values: v = e_ip where e_ip + c·e_f = 0 and c = -1 makes v = e_f. */
  lemma DifferenceZero(v: Scalar, eip: Scalar, ef: Scalar, eh: Scalar, c: Scalar)
    requires v == eip && eh == eip + c * ef && eh == 0.0 && c == -1.0
    ensures v == ef
  {
  }

  /** The interpolating polynomial minus f, having at most n coefficients and n roots, vanishes everywhere. */
  lemma DifferenceVanishesEverywhere(xs: seq<Scalar>, f: Poly, x: Scalar)
    requires Distinct(xs)
    requires |f| <= |xs|
    ensures Eval(Add(InterpolationPoly(xs, EvalAll(f, xs), |xs|), Scale(-1.0, f)), x) == 0.0
  {
    var ys := EvalAll(f, xs);
    var h := Add(InterpolationPoly(xs, ys, |xs|), Scale(-1.0, f));
    InterpolationPolyLength(xs, ys, |xs|);
    forall k | 0 <= k < |xs|
      ensures Eval(h, xs[k]) == 0.0
    {
      DifferenceVanishesAtNode(xs, f, k);
    }
    VanishesEverywhere(h, xs, x);
  }

  /** The same statement for values given as a sequence. */
  lemma InterpolationOfValues(xs: seq<Scalar>, ys: seq<Scalar>, f: Poly, x: Scalar)
    requires Distinct(xs)
    requires |f| <= |xs| && |ys| == |xs|
    requires forall k :: 0 <= k < |xs| ==> ys[k] == Eval(f, xs[k])
    ensures Interpolate(xs, ys, x) == Eval(f, x)
  {
    assert ys == EvalAll(f, xs);
    InterpolationExact(xs, f, x);
  }
}
