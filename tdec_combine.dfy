/**
 * Lagrange coefficients and the combination of decryption shares into the
 * shared secret (ferveo-tdec/src/combine.rs).
 *
 * In exponent form the shared secret prod_i D_i^{λ_i} of the simple variant is
 * sum_i D_i·λ_i, and the product prod_i D_i of the precomputed variant is a sum.
 */
module TdecCombine {
  import opened Field
  import opened Polynomial
  import opened Lagrange
  import opened TdecDecryption

  /**
   * One coefficient per point, in point order: for each x_j the product of
   * (x_m - x_i)/(x_m - x_j) over the points x_m that differ from x_j.
   */
  method LagrangeBasisAt(sharesX: seq<Scalar>, xI: Scalar) returns (lagrangeCoeffs: seq<Scalar>)
    ensures lagrangeCoeffs == Coeffs(sharesX, xI)
  {
    lagrangeCoeffs := [];
    for j := 0 to |sharesX|
      invariant lagrangeCoeffs == Coeffs(sharesX, xI)[..j]
    {
      var xj := sharesX[j];
      var prod := 1.0;
      for m := 0 to |sharesX|
        invariant prod == PartialProduct(sharesX, xI, xj, m)
      {
        var xm := sharesX[m];
        if xj != xm {
          prod := prod * ((xm - xI) / (xm - xj));
        }
      }
      lagrangeCoeffs := lagrangeCoeffs + [prod];
    }
  }

  /** The coefficients at target 0, the ones that reconstruct the secret. */
  method PrepareCombineSimple(domain: seq<Scalar>) returns (lagrangeCoeffs: seq<Scalar>)
    ensures lagrangeCoeffs == Coeffs(domain, 0.0)
  {
    lagrangeCoeffs := LagrangeBasisAt(domain, 0.0);
  }

  /** sum_{i<n} D_i·λ_i, folded from the identity of GT. */
  function CombinePrefix(decryptionShares: seq<DecryptionShareSimple>, lagrangeCoeffs: seq<Scalar>, n: nat): GT
    requires n <= |decryptionShares| && n <= |lagrangeCoeffs|
  {
    if n == 0 then GTOne
    else CombinePrefix(decryptionShares, lagrangeCoeffs, n - 1)
         + decryptionShares[n - 1].decryptionShare * lagrangeCoeffs[n - 1]
  }

  /** prod_i D_i^{λ_i} over the pairs of the zip, which stops at the shorter input. */
  function ShareCombineSimple(decryptionShares: seq<DecryptionShareSimple>, lagrangeCoeffs: seq<Scalar>)
    : (sharedSecret: GT)
    ensures |decryptionShares| == 0 || |lagrangeCoeffs| == 0 ==> sharedSecret == GTOne
  {
    CombinePrefix(decryptionShares, lagrangeCoeffs, Min(|decryptionShares|, |lagrangeCoeffs|))
  }

  lemma {:induction false} CombinePrefixAgree(
    shares: seq<DecryptionShareSimple>, coeffs: seq<Scalar>,
    shares': seq<DecryptionShareSimple>, coeffs': seq<Scalar>, n: nat)
    requires n <= |shares| && n <= |coeffs| && n <= |shares'| && n <= |coeffs'|
    requires forall i :: 0 <= i < n ==> shares[i] == shares'[i] && coeffs[i] == coeffs'[i]
    ensures CombinePrefix(shares, coeffs, n) == CombinePrefix(shares', coeffs', n)
  {
    if n != 0 {
      CombinePrefixAgree(shares, coeffs, shares', coeffs', n - 1);
    }
  }

  /** Elements beyond the shorter of the two inputs do not contribute. */
  lemma ZipStopsAtShorter(decryptionShares: seq<DecryptionShareSimple>, lagrangeCoeffs: seq<Scalar>)
    ensures var n := Min(|decryptionShares|, |lagrangeCoeffs|);
      ShareCombineSimple(decryptionShares, lagrangeCoeffs)
      == ShareCombineSimple(decryptionShares[..n], lagrangeCoeffs[..n])
  {
    var n := Min(|decryptionShares|, |lagrangeCoeffs|);
    CombinePrefixAgree(decryptionShares, lagrangeCoeffs, decryptionShares[..n], lagrangeCoeffs[..n], n);
  }

  /** In exponent form, D_i·λ_i summed over the zip is U times the dot product. */
  lemma {:induction false} CombinePrefixOfHonestShares(
    decryptionShares: seq<DecryptionShareSimple>, lagrangeCoeffs: seq<Scalar>,
    u: G1, ys: seq<Scalar>, n: nat)
    requires n <= |decryptionShares| && n <= |lagrangeCoeffs| && n <= |ys|
    requires forall j :: 0 <= j < n ==> decryptionShares[j].decryptionShare == Pairing(u, ys[j])
    ensures CombinePrefix(decryptionShares, lagrangeCoeffs, n) == Pairing(u, DotPrefix(ys, lagrangeCoeffs, n))
  {
    if n != 0 {
      CombinePrefixOfHonestShares(decryptionShares, lagrangeCoeffs, u, ys, n - 1);
      var d := DotPrefix(ys, lagrangeCoeffs, n - 1);
      assert u * d + (u * ys[n - 1]) * lagrangeCoeffs[n - 1] == u * (d + ys[n - 1] * lagrangeCoeffs[n - 1]);
    }
  }

  /**
   * Secret reconstruction: if share j is e(U, f(x_j)) for a polynomial f with
   * at most as many coefficients as there are (distinct) points, combining with
   * the target-0 coefficients yields e(U, f(0)).
   */
  lemma ShareCombineSimpleReconstructs(
    decryptionShares: seq<DecryptionShareSimple>, xs: seq<Scalar>, u: G1, f: Poly)
    requires Distinct(xs)
    requires |decryptionShares| == |xs| && |f| <= |xs|
    requires forall j :: 0 <= j < |xs| ==> decryptionShares[j].decryptionShare == Pairing(u, Eval(f, xs[j]))
    ensures ShareCombineSimple(decryptionShares, Coeffs(xs, 0.0)) == Pairing(u, Eval(f, 0.0))
  {
    var ys := EvalAll(f, xs);
    CombinePrefixOfHonestShares(decryptionShares, Coeffs(xs, 0.0), u, ys, |xs|);
    InterpolationExact(xs, f, 0.0);
  }

  function ShareValue(s: DecryptionSharePrecomputed): GT
  {
    s.decryptionShare
  }

  /** prod_i C_{λ_i}: the product of all shares, folded from the identity of GT. */
  function ShareCombinePrecomputed(shares: seq<DecryptionSharePrecomputed>): (sharedSecret: GT)
    ensures |shares| == 0 ==> sharedSecret == GTOne
  {
    SumBy(shares, ShareValue)
  }

  /** The precomputed combination does not depend on the order of the shares. */
  lemma ShareCombinePrecomputedOrderFree(shares: seq<DecryptionSharePrecomputed>, shuffled: seq<DecryptionSharePrecomputed>)
    requires multiset(shares) == multiset(shuffled)
    ensures ShareCombinePrecomputed(shares) == ShareCombinePrecomputed(shuffled)
  {
    SumByPermutation(shares, shuffled, ShareValue);
  }

  lemma {:induction false} PrecomputedPrefix(
    shares: seq<DecryptionSharePrecomputed>, u: G1, lambdas: seq<Scalar>, ys: seq<Scalar>, n: nat)
    requires n <= |shares| && n <= |lambdas| && n <= |ys|
    requires forall j :: 0 <= j < n ==> shares[j].decryptionShare == Pairing(u * lambdas[j], ys[j])
    ensures SumBy(shares[..n], ShareValue) == Pairing(u, DotPrefix(ys, lambdas, n))
  {
    if n != 0 {
      PrecomputedPrefix(shares, u, lambdas, ys, n - 1);
      assert shares[..n][..n - 1] == shares[..n - 1];
      var d := DotPrefix(ys, lambdas, n - 1);
      assert u * d + (u * lambdas[n - 1]) * ys[n - 1] == u * (d + ys[n - 1] * lambdas[n - 1]);
    }
  }

  /** Share j is e(λ_j·U, f(x_j)), λ_j the target-0 coefficient of x_j. */
  predicate HonestPrecomputedShare(shares: seq<DecryptionSharePrecomputed>, xs: seq<Scalar>, u: G1, f: Poly, j: nat)
    requires j < |shares| && j < |xs|
  {
    shares[j].decryptionShare == Pairing(u * Coeffs(xs, 0.0)[j], Eval(f, xs[j]))
  }

  predicate HonestPrecomputedShares(shares: seq<DecryptionSharePrecomputed>, xs: seq<Scalar>, u: G1, f: Poly)
  {
    |shares| == |xs| && forall j :: 0 <= j < |xs| ==> HonestPrecomputedShare(shares, xs, u, f, j)
  }

  /**
   * Precomputed shares e(λ_j·U, f(x_j)) made with the target-0 coefficients of
   * distinct points combine to e(U, f(0)), the value the simple variant yields.
   */
  lemma ShareCombinePrecomputedReconstructs(
    shares: seq<DecryptionSharePrecomputed>, xs: seq<Scalar>, u: G1, f: Poly)
    requires Distinct(xs) && |f| <= |xs|
    requires HonestPrecomputedShares(shares, xs, u, f)
    ensures ShareCombinePrecomputed(shares) == Pairing(u, Eval(f, 0.0))
  {
    var ys := EvalAll(f, xs);
    forall j | 0 <= j < |xs|
      ensures shares[j].decryptionShare == Pairing(u * Coeffs(xs, 0.0)[j], ys[j])
    {
      assert HonestPrecomputedShare(shares, xs, u, f, j);
    }
    PrecomputedPrefix(shares, u, Coeffs(xs, 0.0), ys, |xs|);
    assert shares[..|xs|] == shares;
    InterpolationExact(xs, f, 0.0);
  }
}
