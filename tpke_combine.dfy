/**
 * Lagrange coefficients and share combination of the older tpke crate
 * (tpke/src/combine.rs), in exponent form.
 *
 * The simple variant computes, for each private context, the target-0
 * coefficient of its own domain point. The fast variant prepares one key per
 * share: the blinded key share scaled by n_0 / prod_{m != i}(u_i - u_m), where n_0
 * multiplies the contexts' `lagrange_n_0` values.
 */
module TpkeCombine {
  import opened Field
  import opened Polynomial
  import opened Lagrange
  import opened TpkeTypes

  /** A context can name its own domain point: entry `index` of its public list has one. */
  predicate HasOwnPoint(c: PrivateDecryptionContext)
  {
    c.index < |c.publicDecryptionContexts| && |c.publicDecryptionContexts[c.index].domain| > 0
  }

  /** The point of each private context, read from its own public entry. */
  function OwnDomainPoints(privateContexts: seq<PrivateDecryptionContext>): (xs: seq<Scalar>)
    requires forall k :: 0 <= k < |privateContexts| ==> HasOwnPoint(privateContexts[k])
    ensures |xs| == |privateContexts|
  {
    seq(|privateContexts|, k requires 0 <= k < |privateContexts| && HasOwnPoint(privateContexts[k]) =>
      privateContexts[k].publicDecryptionContexts[privateContexts[k].index].domain[0])
  }

  /**
   * One coefficient per private context, in order: for the point x_j the product
   * of x_m/(x_m - x_j) over the points x_m that differ from it, which is the
   * Lagrange coefficient at target 0. The first argument is not read.
   */
  method PrepareCombineSimple(
    publicContexts: seq<PublicDecryptionContext>, privateContexts: seq<PrivateDecryptionContext>)
    returns (lagrangeCoeffs: seq<Scalar>)
    requires forall k :: 0 <= k < |privateContexts| ==> HasOwnPoint(privateContexts[k])
    ensures lagrangeCoeffs == Coeffs(OwnDomainPoints(privateContexts), 0.0)
  {
    var xs := OwnDomainPoints(privateContexts);
    lagrangeCoeffs := [];
    for j := 0 to |xs|
      invariant lagrangeCoeffs == Coeffs(xs, 0.0)[..j]
    {
      var xj := xs[j];
      var prod := 1.0;
      for m := 0 to |xs|
        invariant prod == PartialProduct(xs, 0.0, xj, m)
      {
        var xm := xs[m];
        if xj != xm {
          prod := prod * (xm / (xm - xj));
        }
      }
      lagrangeCoeffs := lagrangeCoeffs + [prod];
    }
  }

  function ShareValues(shares: seq<DecryptionShareSimple>): (ds: seq<GT>)
    ensures |ds| == |shares|
  {
    seq(|shares|, k requires 0 <= k < |shares| => shares[k].decryptionShare)
  }

  /**
   * prod_i C_i^{α_i} from the identity, over the zipped pairs: in exponent form
   * the dot product of the share values with the coefficients, which stops at
   * the shorter input.
   */
  method ShareCombineSimple(shares: seq<DecryptionShareSimple>, lagrange: seq<Scalar>)
    returns (productOfShares: GT)
    ensures productOfShares == Dot(ShareValues(shares), lagrange)
  {
    productOfShares := GTOne;
    var n := Min(|shares|, |lagrange|);
    for i := 0 to n
      invariant productOfShares == DotPrefix(ShareValues(shares), lagrange, i)
    {
      var ci := shares[i].decryptionShare;
      var ss := ci * lagrange[i];
      productOfShares := productOfShares + ss;
    }
  }

  lemma {:induction false} CombinePrefixOfHonestShares(
    shares: seq<DecryptionShareSimple>, lagrange: seq<Scalar>, u: G1, ys: seq<Scalar>, n: nat)
    requires n <= |shares| && n <= |lagrange| && n <= |ys|
    requires forall j :: 0 <= j < n ==> shares[j].decryptionShare == Pairing(u, ys[j])
    ensures DotPrefix(ShareValues(shares), lagrange, n) == Pairing(u, DotPrefix(ys, lagrange, n))
  {
    if n != 0 {
      CombinePrefixOfHonestShares(shares, lagrange, u, ys, n - 1);
      var d := DotPrefix(ys, lagrange, n - 1);
      assert ShareValues(shares)[n - 1] == u * ys[n - 1];
      assert u * d + (u * ys[n - 1]) * lagrange[n - 1] == u * (d + ys[n - 1] * lagrange[n - 1]);
    }
  }

  /**
   * Simple shares e(U, f(x_j)) of a polynomial with at most as many
   * coefficients as there are distinct points combine, with the target-0
   * coefficients, to e(U, f(0)).
   */
  lemma ShareCombineSimpleReconstructs(shares: seq<DecryptionShareSimple>, xs: seq<Scalar>, u: G1, f: Poly)
    requires Distinct(xs) && |f| <= |xs| && |shares| == |xs|
    requires forall j :: 0 <= j < |xs| ==> shares[j].decryptionShare == Pairing(u, Eval(f, xs[j]))
    ensures Dot(ShareValues(shares), Coeffs(xs, 0.0)) == Pairing(u, Eval(f, 0.0))
  {
    var ys := EvalAll(f, xs);
    CombinePrefixOfHonestShares(shares, Coeffs(xs, 0.0), u, ys, |xs|);
    InterpolationExact(xs, f, 0.0);
  }

  /** prod_{m < n, m != i} (u_i - u_m), by position: zero when a point repeats. */
  function DerivativePrefix(us: seq<Scalar>, i: nat, n: nat): Scalar
    requires i < |us| && n <= |us|
  {
    if n == 0 then 1.0
    else if n - 1 == i then DerivativePrefix(us, i, n - 1)
    else DerivativePrefix(us, i, n - 1) * (us[i] - us[n - 1])
  }

  /**
   * The inverse Lagrange coefficient of point i over the subproduct domain of
   * `us`: the derivative of prod_m (x - u_m) at u_i.
   */
  function InverseLagrangeCoefficient(us: seq<Scalar>, i: nat): Scalar
    requires i < |us|
  {
    DerivativePrefix(us, i, |us|)
  }

  /** `c·v^{-1}`, with a zero `v` left at zero as batch inversion does. */
  function InverseAndMul(v: Scalar, c: Scalar): Scalar
  {
    if v == 0.0 then 0.0 else c / v
  }

  /** The context a share names must have exactly one domain point and one blinded share. */
  predicate SingleEntryContext(pubContexts: seq<PublicDecryptionContext>, d: DecryptionShareFast)
  {
    d.decrypterIndex < |pubContexts|
    && |pubContexts[d.decrypterIndex].domain| == 1
    && |pubContexts[d.decrypterIndex].blindedKeyShares.blindedKeyShares| == 1
  }

  /** The single blinded key share of the context share `d` names. */
  function BlindedShareOf(pubContexts: seq<PublicDecryptionContext>, d: DecryptionShareFast): G2
    requires SingleEntryContext(pubContexts, d)
  {
    pubContexts[d.decrypterIndex].blindedKeyShares.blindedKeyShares[0]
  }

  /** The single domain point of the context share `d` names. */
  function PointOf(pubContexts: seq<PublicDecryptionContext>, d: DecryptionShareFast): Scalar
    requires SingleEntryContext(pubContexts, d)
  {
    pubContexts[d.decrypterIndex].domain[0]
  }

  /** The named context stores -u as its `lagrange_n_0`, u its single point (as setup makes it). */
  predicate StoresNegatedPoint(pubContexts: seq<PublicDecryptionContext>, d: DecryptionShareFast)
  {
    SingleEntryContext(pubContexts, d) && pubContexts[d.decrypterIndex].lagrangeN0 == -PointOf(pubContexts, d)
  }

  function SharePoints(pubContexts: seq<PublicDecryptionContext>, shares: seq<DecryptionShareFast>): (us: seq<Scalar>)
    requires forall k :: 0 <= k < |shares| ==> SingleEntryContext(pubContexts, shares[k])
    ensures |us| == |shares|
  {
    seq(|shares|, k requires 0 <= k < |shares| && SingleEntryContext(pubContexts, shares[k]) =>
      PointOf(pubContexts, shares[k]))
  }

  /** prod_{k < n} lagrange_n_0 of the context share k names. */
  function N0Prefix(pubContexts: seq<PublicDecryptionContext>, shares: seq<DecryptionShareFast>, n: nat): Scalar
    requires n <= |shares|
    requires forall k :: 0 <= k < |shares| ==> SingleEntryContext(pubContexts, shares[k])
  {
    if n == 0 then 1.0 else N0Prefix(pubContexts, shares, n - 1) * pubContexts[shares[n - 1].decrypterIndex].lagrangeN0
  }

  /**
   * One prepared key per share, in share order: the named context's single
   * blinded key share times n_0 / prod_{m != i}(u_i - u_m). Every named context
   * must hold exactly one domain point and one blinded key share; the source
   * asserts both and panics otherwise.
   */
  method PrepareCombine(pubContexts: seq<PublicDecryptionContext>, shares: seq<DecryptionShareFast>)
    returns (prepared: seq<G2>)
    requires forall k :: 0 <= k < |shares| ==> SingleEntryContext(pubContexts, shares[k])
    ensures |prepared| == |shares|
    ensures forall k :: 0 <= k < |shares| ==>
      prepared[k] == BlindedShareOf(pubContexts, shares[k])
                     * InverseAndMul(InverseLagrangeCoefficient(SharePoints(pubContexts, shares), k),
                                     N0Prefix(pubContexts, shares, |shares|))
  {
    var domain := [];
    var n0 := 1.0;
    for k := 0 to |shares|
      invariant domain == SharePoints(pubContexts, shares)[..k]
      invariant n0 == N0Prefix(pubContexts, shares, k)
    {
      var d := shares[k];
      domain := domain + [PointOf(pubContexts, d)];
      n0 := n0 * pubContexts[d.decrypterIndex].lagrangeN0;
    }
    assert domain == SharePoints(pubContexts, shares);
    var lagrange := seq(|domain|, i requires 0 <= i < |domain| => InverseLagrangeCoefficient(domain, i));
    lagrange := seq(|lagrange|, i requires 0 <= i < |lagrange| => InverseAndMul(lagrange[i], n0));
    // the source maps each share to its blinded key share times its factor
    prepared := ScaledShares(pubContexts, shares, lagrange);
  }

  /** Each share's blinded key share times its factor. */
  function ScaledShares(pubContexts: seq<PublicDecryptionContext>, shares: seq<DecryptionShareFast>, factors: seq<Scalar>)
    : (r: seq<G2>)
    requires forall k :: 0 <= k < |shares| ==> SingleEntryContext(pubContexts, shares[k])
    requires |factors| == |shares|
    ensures |r| == |shares|
    ensures forall k :: 0 <= k < |shares| ==> r[k] == BlindedShareOf(pubContexts, shares[k]) * factors[k]
  {
    seq(|shares|, k requires 0 <= k < |shares| => BlindedShareOf(pubContexts, shares[k]) * factors[k])
  }

  /** prod_{m < n} (-u_m). */
  function NegatedProduct(us: seq<Scalar>, n: nat): Scalar
    requires n <= |us|
  {
    if n == 0 then 1.0 else NegatedProduct(us, n - 1) * -us[n - 1]
  }

  /** When every named context stores -u as its `lagrange_n_0`, n_0 is prod_m (-u_m). */
  lemma {:induction false} N0OfSinglePoints(pubContexts: seq<PublicDecryptionContext>, shares: seq<DecryptionShareFast>, n: nat)
    requires n <= |shares|
    requires forall k :: 0 <= k < |shares| ==> SingleEntryContext(pubContexts, shares[k])
    requires forall k :: 0 <= k < |shares| ==> StoresNegatedPoint(pubContexts, shares[k])
    ensures N0Prefix(pubContexts, shares, n) == NegatedProduct(SharePoints(pubContexts, shares), n)
  {
    if n != 0 {
      N0OfSinglePoints(pubContexts, shares, n - 1);
    }
  }

  /** prod_{m < n, m != i} (-u_m). */
  function NegatedProductWithout(us: seq<Scalar>, i: nat, n: nat): Scalar
    requires i < |us| && n <= |us|
  {
    if n == 0 then 1.0
    else if n - 1 == i then NegatedProductWithout(us, i, n - 1)
    else NegatedProductWithout(us, i, n - 1) * -us[n - 1]
  }

  lemma {:induction false} NegatedProductSplitsOff(us: seq<Scalar>, i: nat, n: nat)
    requires i < |us| && n <= |us|
    ensures NegatedProduct(us, n) == (if i < n then -us[i] else 1.0) * NegatedProductWithout(us, i, n)
  {
    if n != 0 {
      NegatedProductSplitsOff(us, i, n - 1);
    }
  }

  /**
   * Over points that differ from u_i, the derivative factor times the target-0
   * Lagrange product is prod_{m != i} (-u_m), and the derivative factor is not
   * zero: each (u_i - u_m)·u_m/(u_m - u_i) is -u_m.
   */
  predicate ProductSplit(us: seq<Scalar>, i: nat, n: nat)
    requires i < |us| && n <= |us|
  {
    DerivativePrefix(us, i, n) != 0.0
    && DerivativePrefix(us, i, n) * PartialProduct(us, 0.0, us[i], n) == NegatedProductWithout(us, i, n)
  }

  lemma {:induction false} DerivativeTimesCoefficient(us: seq<Scalar>, i: nat, n: nat)
    requires i < |us| && n <= |us|
    requires forall m :: 0 <= m < |us| && m != i ==> us[m] != us[i]
    ensures ProductSplit(us, i, n)
  {
    if n != 0 {
      DerivativeTimesCoefficient(us, i, n - 1);
      if n - 1 == i {
        assert PartialProduct(us, 0.0, us[i], n) == PartialProduct(us, 0.0, us[i], n - 1);
      } else {
        ProductSplitStep(us, i, n);
      }
    }
  }

  lemma ProductSplitStep(us: seq<Scalar>, i: nat, n: nat)
    requires i < |us| && 0 < n <= |us| && n - 1 != i && us[n - 1] != us[i]
    requires ProductSplit(us, i, n - 1)
    ensures ProductSplit(us, i, n)
  {
    FactorTimesDifference(us[n - 1], us[i]);
    SplitClose(DerivativePrefix(us, i, n), PartialProduct(us, 0.0, us[i], n), NegatedProductWithout(us, i, n),
               DerivativePrefix(us, i, n - 1), PartialProduct(us, 0.0, us[i], n - 1),
               NegatedProductWithout(us, i, n - 1), Factor(us[n - 1], 0.0, us[i]), us[i], us[n - 1]);
  }

  /** The target-0 factor of point b for the coefficient of a, times b - a, is b. */
  lemma FactorTimesDifference(b: Scalar, a: Scalar)
    requires a != b
    ensures Factor(b, 0.0, a) * (b - a) == b
  {
  }

  /** One more factor of the split, on plain values: (a - b)·f = -b when f·(b - a) = b. */
  lemma SplitClose(dn: Scalar, pn: Scalar, qn: Scalar, d: Scalar, p: Scalar, q: Scalar, f: Scalar, a: Scalar, b: Scalar)
    requires a != b && f * (b - a) == b && d != 0.0 && d * p == q
    requires dn == d * (a - b) && pn == p * f && qn == q * -b
    ensures dn != 0.0 && dn * pn == qn
  {
    assert (a - b) * f == -b;
    assert dn * pn == (d * p) * ((a - b) * f);
  }

  /** Over distinct points, prod_m (-u_m) divided by the derivative at u_i is -u_i·L_i(0). */
  lemma CoefficientOverPoints(us: seq<Scalar>, i: nat)
    requires Distinct(us) && i < |us|
    ensures InverseAndMul(InverseLagrangeCoefficient(us, i), NegatedProduct(us, |us|)) == -us[i] * Coeff(us, 0.0, i)
  {
    NegatedProductSplitsOff(us, i, |us|);
    DerivativeTimesCoefficient(us, i, |us|);
    CoefficientClose(NegatedProduct(us, |us|), DerivativePrefix(us, i, |us|),
                     PartialProduct(us, 0.0, us[i], |us|), NegatedProductWithout(us, i, |us|), us[i], i, |us|);
  }

  /** On plain values: n_0 = -u·d·p with d != 0 makes n_0 / d equal to -u·p. */
  lemma CoefficientClose(n0: Scalar, d: Scalar, p: Scalar, w: Scalar, u: Scalar, i: nat, n: nat)
    requires i < n && d != 0.0 && d * p == w && n0 == (if i < n then -u else 1.0) * w
    ensures InverseAndMul(d, n0) == -u * p
  {
    assert n0 == (-u * p) * d;
  }

  /**
   * Over distinct points whose contexts store -u as `lagrange_n_0`, the
   * coefficient of share i in `PrepareCombine` is -u_i times its target-0
   * Lagrange coefficient.
   */
  lemma PrepareCombineCoefficient(pubContexts: seq<PublicDecryptionContext>, shares: seq<DecryptionShareFast>, i: nat)
    requires forall k :: 0 <= k < |shares| ==> SingleEntryContext(pubContexts, shares[k])
    requires forall k :: 0 <= k < |shares| ==> StoresNegatedPoint(pubContexts, shares[k])
    requires Distinct(SharePoints(pubContexts, shares))
    requires i < |shares|
    ensures var us := SharePoints(pubContexts, shares);
      InverseAndMul(InverseLagrangeCoefficient(us, i), N0Prefix(pubContexts, shares, |shares|))
      == -us[i] * Coeff(us, 0.0, i)
  {
    N0OfSinglePoints(pubContexts, shares, |shares|);
    CoefficientOverPoints(SharePoints(pubContexts, shares), i);
  }
}
