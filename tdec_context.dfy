/**
 * A participant's private decryption context and the two ways it answers a
 * ciphertext (ferveo-tdec/src/context.rs).
 */
module TdecContext {
  import opened Field
  import opened Bytes
  import opened Polynomial
  import opened Lagrange
  import opened TdecTypes
  import opened TdecDecryption
  import TdecCombine

  /**
   * A simple decryption share made with the context's own key b and key share;
   * the ciphertext check decides whether a share is made at all.
   */
  function CreateShare(ctx: PrivateDecryptionContextSimple, header: CiphertextHeader, aad: seq<byte>, check: HeaderCheck)
    : (r: Result<DecryptionShareSimple>)
    requires check(header, aad) ==> ctx.setupParams.b != 0.0
    ensures r.Err? <==> !check(header, aad)
    ensures r.Err? ==> r.error == CiphertextVerificationFailed
    ensures r.Ok? ==> r.value.decryptionShare == Pairing(header.commitment, ctx.privateKeyShare)
    ensures r.Ok? ==> r.value.validatorChecksum.checksum * ctx.setupParams.b == header.commitment
  {
    CreateSimple(ctx.setupParams.b, ctx.privateKeyShare, header, aad, check)
  }

  /** The domain points of the selected participants, in selection order. */
  function SelectedDomainPoints(ctx: PrivateDecryptionContextSimple, selected: seq<nat>): (points: seq<Scalar>)
    requires forall k :: 0 <= k < |selected| ==> selected[k] < |ctx.publicDecryptionContexts|
    ensures |points| == |selected|
    ensures forall k :: 0 <= k < |selected| ==> points[k] == ctx.publicDecryptionContexts[selected[k]].domain
  {
    seq(|selected|, k requires 0 <= k < |selected| => ctx.publicDecryptionContexts[selected[k]].domain)
  }

  /**
   * The precomputed share, as written: the Lagrange coefficients are computed
   * over the selected points only, and the one used is the one at position
   * `ctx.index` of the selection. An index outside the contexts, or a selection
   * shorter than `ctx.index + 1`, panics before the ciphertext is checked.
   */
  function CreateSharePrecomputed(
    ctx: PrivateDecryptionContextSimple, header: CiphertextHeader, aad: seq<byte>,
    selected: seq<nat>, check: HeaderCheck)
    : (r: Result<DecryptionSharePrecomputed>)
    requires forall k :: 0 <= k < |selected| ==> selected[k] < |ctx.publicDecryptionContexts|
    requires ctx.index < |selected|
    requires check(header, aad) ==> ctx.setupParams.b != 0.0
    ensures r.Err? <==> !check(header, aad)
    ensures r.Ok? ==> r.value.decrypterIndex == ctx.index
    ensures r.Ok? ==>
      r.value.decryptionShare
      == Pairing(header.commitment * Coeff(SelectedDomainPoints(ctx, selected), 0.0, ctx.index), ctx.privateKeyShare)
  {
    var lagrangeCoeffs := Coeffs(SelectedDomainPoints(ctx, selected), 0.0);
    CreatePrecomputed(ctx.index, ctx.setupParams.b, ctx.privateKeyShare, header, aad, lagrangeCoeffs[ctx.index], check)
  }

  /** The first position of `v` in `s`, searching from the front. */
  function FirstIndex(s: seq<nat>, v: nat): (k: nat)
    requires v in s
    ensures k < |s| && s[k] == v
    ensures forall i :: 0 <= i < k ==> s[i] != v
  {
    if s[0] == v then 0 else 1 + FirstIndex(s[1..], v)
  }

  /**
   * The rank of participant `v` in the selection. Kept non-recursive so that
   * contracts mentioning it see one fixed term.
   */
  function PositionOf(s: seq<nat>, v: nat): (k: nat)
    requires v in s
    ensures k < |s| && s[k] == v
    ensures forall i :: 0 <= i < k ==> s[i] != v
  {
    FirstIndex(s, v)
  }

  /**
   * The precomputed share as evidently intended: the coefficient used is the one
   * at the participant's own position in the selection, as the newer
   * `create_decryption_share_precomputed` of ferveo/src/refresh.rs does.
   */
  function CreateSharePrecomputedAtOwnPosition(
    ctx: PrivateDecryptionContextSimple, header: CiphertextHeader, aad: seq<byte>,
    selected: seq<nat>, check: HeaderCheck)
    : (r: Result<DecryptionSharePrecomputed>)
    requires forall k :: 0 <= k < |selected| ==> selected[k] < |ctx.publicDecryptionContexts|
    requires ctx.index in selected
    requires check(header, aad) ==> ctx.setupParams.b != 0.0
    ensures r.Err? <==> !check(header, aad)
    ensures r.Ok? ==> r.value.decrypterIndex == ctx.index
    ensures r.Ok? ==>
      r.value.decryptionShare
      == Pairing(header.commitment * Coeff(SelectedDomainPoints(ctx, selected), 0.0, PositionOf(selected, ctx.index)),
                 ctx.privateKeyShare)
  {
    var lagrangeCoeff := Coeff(SelectedDomainPoints(ctx, selected), 0.0, PositionOf(selected, ctx.index));
    CreatePrecomputed(ctx.index, ctx.setupParams.b, ctx.privateKeyShare, header, aad, lagrangeCoeff, check)
  }

  /**
   * A cohort sharing a polynomial f: participant i holds Z_i = f(x_i), its key
   * b_i is non-zero, and every participant sees the same public contexts.
   */
  predicate Cohort(ctxs: seq<PrivateDecryptionContextSimple>, f: Poly)
  {
    forall i :: 0 <= i < |ctxs| ==>
      ctxs[i].index == i
      && ctxs[i].setupParams.b != 0.0
      && ctxs[i].publicDecryptionContexts == ctxs[0].publicDecryptionContexts
      && |ctxs[0].publicDecryptionContexts| == |ctxs|
      && ctxs[i].privateKeyShare == Eval(f, ctxs[0].publicDecryptionContexts[i].domain)
  }

  /** Every selected index names a participant, and none is selected twice. */
  predicate ValidSelection(ctxs: seq<PrivateDecryptionContextSimple>, selected: seq<nat>)
  {
    && (forall k :: 0 <= k < |selected| ==> selected[k] < |ctxs|)
    && (forall k, l :: 0 <= k < l < |selected| ==> selected[k] != selected[l])
  }

  /** `shares[k]` is what the k-th selected participant answers, with the corrected lookup. */
  predicate CorrectedShares(
    ctxs: seq<PrivateDecryptionContextSimple>, f: Poly, selected: seq<nat>,
    header: CiphertextHeader, aad: seq<byte>, check: HeaderCheck,
    shares: seq<DecryptionSharePrecomputed>)
    requires |ctxs| > 0 && Cohort(ctxs, f) && ValidSelection(ctxs, selected)
  {
    |shares| == |selected|
    && forall k {:trigger shares[k]} :: 0 <= k < |selected| ==>
      CreateSharePrecomputedAtOwnPosition(ctxs[selected[k]], header, aad, selected, check) == Ok(shares[k])
  }

  /**
   * With the corrected lookup, the selected participants' precomputed shares,
   * taken in selection order, combine to e(U, f(0)) for every selection of
   * distinct participants with distinct points and at least |f| members.
   */
  lemma {:induction false} CorrectedSharesReconstruct(
    ctxs: seq<PrivateDecryptionContextSimple>, f: Poly, selected: seq<nat>,
    header: CiphertextHeader, aad: seq<byte>, check: HeaderCheck,
    shares: seq<DecryptionSharePrecomputed>)
    requires |ctxs| > 0 && Cohort(ctxs, f) && ValidSelection(ctxs, selected)
    requires Distinct(SelectedDomainPoints(ctxs[0], selected))
    requires |f| <= |selected|
    requires check(header, aad)
    requires CorrectedShares(ctxs, f, selected, header, aad, check, shares)
    ensures TdecCombine.ShareCombinePrecomputed(shares) == Pairing(header.commitment, Eval(f, 0.0))
  {
    var xs := SelectedDomainPoints(ctxs[0], selected);
    SharesOfSelected(ctxs, f, selected, header, aad, check, shares);
    TdecCombine.ShareCombinePrecomputedReconstructs(shares, xs, header.commitment, f);
  }

  lemma {:induction false} SharesOfSelected(
    ctxs: seq<PrivateDecryptionContextSimple>, f: Poly, selected: seq<nat>,
    header: CiphertextHeader, aad: seq<byte>, check: HeaderCheck,
    shares: seq<DecryptionSharePrecomputed>)
    requires |ctxs| > 0 && Cohort(ctxs, f) && ValidSelection(ctxs, selected)
    requires check(header, aad)
    requires CorrectedShares(ctxs, f, selected, header, aad, check, shares)
    ensures TdecCombine.HonestPrecomputedShares(shares, SelectedDomainPoints(ctxs[0], selected), header.commitment, f)
  {
    var xs := SelectedDomainPoints(ctxs[0], selected);
    assert |shares| == |xs|;
    forall j | 0 <= j < |xs|
      ensures TdecCombine.HonestPrecomputedShare(shares, xs, header.commitment, f, j)
    {
      ShareOfSelected(ctxs, f, selected, header, aad, check, shares, j);
    }
  }

  lemma {:induction false} ShareOfSelected(
    ctxs: seq<PrivateDecryptionContextSimple>, f: Poly, selected: seq<nat>,
    header: CiphertextHeader, aad: seq<byte>, check: HeaderCheck,
    shares: seq<DecryptionSharePrecomputed>, k: nat)
    requires |ctxs| > 0 && Cohort(ctxs, f) && ValidSelection(ctxs, selected)
    requires check(header, aad)
    requires k < |selected| && k < |shares|
    requires CreateSharePrecomputedAtOwnPosition(ctxs[selected[k]], header, aad, selected, check) == Ok(shares[k])
    ensures TdecCombine.HonestPrecomputedShare(shares, SelectedDomainPoints(ctxs[0], selected), header.commitment, f, k)
  {
    var xs := SelectedDomainPoints(ctxs[0], selected);
    var c := ctxs[selected[k]];
    assert c.index == selected[k];
    assert c.publicDecryptionContexts == ctxs[0].publicDecryptionContexts;
    assert SelectedDomainPoints(c, selected) == xs;
    var p := PositionOf(selected, c.index);
    assert selected[p] == selected[k];
    assert c.privateKeyShare == Eval(f, xs[k]);
  }

  /** The target-0 coefficients of two distinct points a, b: b/(b-a) and a/(a-b). */
  lemma TwoPointCoeffs(a: Scalar, b: Scalar)
    requires a != b
    ensures Coeff([a, b], 0.0, 0) == b / (b - a)
    ensures Coeff([a, b], 0.0, 1) == a / (a - b)
  {
    var xs := [a, b];
    assert PartialProduct(xs, 0.0, a, 1) == 1.0;
    assert PartialProduct(xs, 0.0, b, 1) == a / (a - b);
  }

  /**
   * As written, a selection that does not place participant i at position i
   * breaks reconstruction: with points 1 and 2, f(x) = 5 + x and the selection
   * [1, 0], the two shares combine to e(U, 8) instead of e(U, f(0)) = e(U, 5).
   */
  lemma SelectionOrderBreaksReconstruction(check: HeaderCheck)
    requires check(CiphertextHeader(1.0, 0.0), [])
    ensures var pub := [PublicDecryptionContextSimple(1.0, 0.0, BlindedKeyShare(1.0, 6.0), 1.0, 1.0),
                        PublicDecryptionContextSimple(2.0, 0.0, BlindedKeyShare(1.0, 7.0), 1.0, 1.0)];
            var c0 := PrivateDecryptionContextSimple(0, SetupParams(1.0, 1.0, 1.0, 1.0), 6.0, pub);
            var c1 := PrivateDecryptionContextSimple(1, SetupParams(1.0, 1.0, 1.0, 1.0), 7.0, pub);
            var header := CiphertextHeader(1.0, 0.0);
            var s0 := CreateSharePrecomputed(c0, header, [], [1, 0], check);
            var s1 := CreateSharePrecomputed(c1, header, [], [1, 0], check);
            && Cohort([c0, c1], [5.0, 1.0])
            && s0.Ok? && s1.Ok?
            && TdecCombine.ShareCombinePrecomputed([s0.value, s1.value]) == 8.0
            && Pairing(header.commitment, Eval([5.0, 1.0], 0.0)) == 5.0
  {
    var pub := [PublicDecryptionContextSimple(1.0, 0.0, BlindedKeyShare(1.0, 6.0), 1.0, 1.0),
                PublicDecryptionContextSimple(2.0, 0.0, BlindedKeyShare(1.0, 7.0), 1.0, 1.0)];
    var c0 := PrivateDecryptionContextSimple(0, SetupParams(1.0, 1.0, 1.0, 1.0), 6.0, pub);
    var c1 := PrivateDecryptionContextSimple(1, SetupParams(1.0, 1.0, 1.0, 1.0), 7.0, pub);
    var points := SelectedDomainPoints(c0, [1, 0]);
    assert points == [2.0, 1.0];
    assert SelectedDomainPoints(c1, [1, 0]) == points;
    TwoPointCoeffs(2.0, 1.0);
    var f := [5.0, 1.0];
    assert f[1..][1..] == [];
    assert Eval(f, 1.0) == 6.0 && Eval(f, 2.0) == 7.0 && Eval(f, 0.0) == 5.0;
    var header := CiphertextHeader(1.0, 0.0);
    var s0 := CreateSharePrecomputed(c0, header, [], [1, 0], check);
    var s1 := CreateSharePrecomputed(c1, header, [], [1, 0], check);
    assert s0.value.decryptionShare == -6.0;
    assert s1.value.decryptionShare == 14.0;
    assert [s0.value, s1.value][..1] == [s0.value];
    assert [s0.value][..0] == [];
    assert SumBy([s0.value], TdecCombine.ShareValue) == -6.0;
    assert SumBy([s0.value, s1.value], TdecCombine.ShareValue) == 8.0;
  }
}
