/**
 * Share refresh and share recovery of the ferveo crate (ferveo/src/refresh.rs),
 * after the proactive secret sharing scheme of Herzberg et al., section 4.2.
 *
 * Every participant deals an update polynomial that vanishes at a root (0 for a
 * refresh, x_r for a recovery), commits to its coefficients in G1 and sends
 * participant i the update pk_i·f(x_i) with the commitment g·f(x_i). Adding the
 * updates to a share and interpolating the results at the root gives back the
 * value the original shares interpolate to there.
 */
module FerveoRefresh {
  import opened Field
  import opened Bytes
  import opened Polynomial
  import opened EvaluationDomain
  import opened Lagrange
  import opened NatSets
  import opened TdecTypes
  import opened TdecDecryption
  import opened FerveoValidator
  import opened FerveoTypes
  import TdecCombine
  import TpkeRefresh

  datatype ShareUpdate = ShareUpdate(update: G2, commitment: G1)

  /** The Feldman commitments to the update polynomial and the update for every share index. */
  datatype UpdateTranscript = UpdateTranscript(coeffs: seq<G1>, updates: map<nat, ShareUpdate>)

  // ---------------------------------------------------------------------------
  // create_updated_key_share

  function UpdateOf(u: ShareUpdate): G2
  {
    u.update
  }

  function FoldUpdates(acc: G2, shareUpdates: seq<ShareUpdate>): G2
    decreases |shareUpdates|
  {
    if |shareUpdates| == 0 then acc else FoldUpdates(acc + shareUpdates[0].update, shareUpdates[1..])
  }

  lemma {:induction false} FoldUpdatesIsSum(acc: G2, shareUpdates: seq<ShareUpdate>)
    ensures FoldUpdates(acc, shareUpdates) == acc + SumBy(shareUpdates, UpdateOf)
    decreases |shareUpdates|
  {
    if |shareUpdates| != 0 {
      var head := [shareUpdates[0]];
      FoldUpdatesIsSum(acc + shareUpdates[0].update, shareUpdates[1..]);
      SumByConcat(head, shareUpdates[1..], UpdateOf);
      assert head + shareUpdates[1..] == shareUpdates;
      assert head[..0] == [];
    }
  }

  /** The share folded with every update, from the share itself and in the given order. */
  function CreateUpdatedKeyShare(privateKeyShare: G2, shareUpdates: seq<ShareUpdate>): (updated: G2)
    ensures updated == privateKeyShare + SumBy(shareUpdates, UpdateOf)
  {
    FoldUpdatesIsSum(privateKeyShare, shareUpdates);
    FoldUpdates(privateKeyShare, shareUpdates)
  }

  /** The order in which the updates arrive does not matter. */
  lemma UpdatesCommute(privateKeyShare: G2, shareUpdates: seq<ShareUpdate>, reordered: seq<ShareUpdate>)
    requires multiset(shareUpdates) == multiset(reordered)
    ensures CreateUpdatedKeyShare(privateKeyShare, shareUpdates) == CreateUpdatedKeyShare(privateKeyShare, reordered)
  {
    SumByPermutation(shareUpdates, reordered, UpdateOf);
  }

  /** Updates pk·d_j(x) for each dealt polynomial d_j add up to pk times their sum at x. */
  lemma {:induction false} SumOfScaledUpdates(shareUpdates: seq<ShareUpdate>, ds: seq<Poly>, pk: G2, x: Scalar, n: nat)
    requires n <= |shareUpdates| && n <= |ds|
    requires forall j :: 0 <= j < n ==> shareUpdates[j].update == pk * Eval(ds[j], x)
    ensures SumBy(shareUpdates[..n], UpdateOf) == pk * TpkeRefresh.DealtSum(ds, n, x)
  {
    if n != 0 {
      SumOfScaledUpdates(shareUpdates, ds, pk, x, n - 1);
      assert shareUpdates[..n][..n - 1] == shareUpdates[..n - 1];
      var d := TpkeRefresh.DealtSum(ds, n - 1, x);
      assert pk * d + pk * Eval(ds[n - 1], x) == pk * (d + Eval(ds[n - 1], x));
    }
  }

  /**
   * A blinded share b·z refreshed with the updates (b·H)·d_j(x) of the dealt
   * polynomials d_j, then unblinded with b⁻¹, is z + Σ_j d_j(x).
   */
  lemma UnblindedRefreshedShare(b: Scalar, z: G2, shareUpdates: seq<ShareUpdate>, ds: seq<Poly>, x: Scalar)
    requires b != 0.0
    requires |shareUpdates| == |ds|
    requires forall j :: 0 <= j < |ds| ==> shareUpdates[j].update == (b * G2Generator) * Eval(ds[j], x)
    ensures CreateUpdatedKeyShare(b * z, shareUpdates) * Inverse(b) == z + TpkeRefresh.DealtSum(ds, |ds|, x)
  {
    SumOfScaledUpdates(shareUpdates, ds, b * G2Generator, x, |ds|);
    assert shareUpdates[..|ds|] == shareUpdates;
    var d := TpkeRefresh.DealtSum(ds, |ds|, x);
    assert (b * z + b * d) * Inverse(b) == (z + d) * (b * Inverse(b));
  }

  // ---------------------------------------------------------------------------
  // recover_share_from_updated_private_shares

  /** The values a map holds under the given keys, in the order of the keys. */
  function ValuesAt(keys: seq<nat>, m: map<nat, real>): (vs: seq<real>)
    requires forall i :: 0 <= i < |keys| ==> keys[i] in m
    ensures |vs| == |keys|
    ensures forall i :: 0 <= i < |keys| ==> vs[i] == m[keys[i]]
  {
    seq(|keys|, i requires 0 <= i < |keys| => m[keys[i]])
  }

  /**
   * Recovery: the updated shares and their domain points, both taken in
   * ascending share-index order, interpolated at x_r; the smallest share index
   * without a domain point is the error.
   */
  function Recovery(xR: Scalar, domainPoints: map<nat, Scalar>, updatedShares: map<nat, G2>): Outcome<G2>
  {
    var missing := updatedShares.Keys - domainPoints.Keys;
    if missing == {} then
      var keys := Sorted(updatedShares.Keys);
      assert forall k :: k in updatedShares.Keys ==> k in domainPoints.Keys || k in missing;
      Success(Interpolate(ValuesAt(keys, domainPoints), ValuesAt(keys, updatedShares), xR))
    else
      Failure(InvalidShareIndex(SetMin(missing)))
  }

  /** In ascending order, the first index that is missing is the smallest missing one. */
  lemma FirstMissingIsSmallest(present: set<nat>, domain: set<nat>, i: nat)
    requires i < |Sorted(present)| && Sorted(present)[i] !in domain
    requires forall j :: 0 <= j < i ==> Sorted(present)[j] in domain
    ensures present - domain != {} && Sorted(present)[i] == SetMin(present - domain)
  {
    var keys := Sorted(present);
    SortedIncreasing(present);
    assert keys[i] in present - domain;
    forall y | y in present - domain
      ensures keys[i] <= y
    {
      SortedCovers(present, y);
      var j :| 0 <= j < |keys| && keys[j] == y;
      assert i <= j;
      if i < j {
        assert keys[i] < keys[j];
      }
    }
    var m := SetMin(present - domain);
    assert keys[i] <= m && m <= keys[i];
  }

  /**
   * Picks the domain point and the updated share of each share index in the
   * given order, failing at the first index that has no domain point.
   */
  method PickByShareIndex(keys: seq<nat>, domainPoints: map<nat, Scalar>, updatedShares: map<nat, G2>)
    returns (r: Outcome<(seq<Scalar>, seq<G2>)>)
    requires forall i :: 0 <= i < |keys| ==> keys[i] in updatedShares
    ensures r.Success? <==> forall i :: 0 <= i < |keys| ==> keys[i] in domainPoints
    ensures r.Success? ==> r.value.0 == ValuesAt(keys, domainPoints) && r.value.1 == ValuesAt(keys, updatedShares)
    ensures r.Failure? ==>
      exists i :: 0 <= i < |keys| && keys[i] !in domainPoints && r.error == InvalidShareIndex(keys[i])
        && forall j :: 0 <= j < i ==> keys[j] in domainPoints
  {
    var points: seq<Scalar> := [];
    var ys: seq<G2> := [];
    for i := 0 to |keys|
      invariant forall j :: 0 <= j < i ==> keys[j] in domainPoints
      invariant |points| == i && forall j :: 0 <= j < i ==> points[j] == domainPoints[keys[j]]
      invariant |ys| == i && forall j :: 0 <= j < i ==> ys[j] == updatedShares[keys[j]]
    {
      var shareIndex := keys[i];
      if shareIndex !in domainPoints {
        return Failure(InvalidShareIndex(shareIndex));
      }
      points := points + [domainPoints[shareIndex]];
      ys := ys + [updatedShares[shareIndex]];
    }
    r := Success((points, ys));
  }

  /**
   * Takes the updated shares in ascending share-index order with their domain
   * points, then folds y_j·L_j(x_r).
   */
  method RecoverShareFromUpdatedPrivateShares(xR: Scalar, domainPoints: map<nat, Scalar>, updatedShares: map<nat, G2>)
    returns (r: Outcome<G2>)
    ensures r == Recovery(xR, domainPoints, updatedShares)
  {
    var keys := Sorted(updatedShares.Keys);
    var picked := PickByShareIndex(keys, domainPoints, updatedShares);
    if picked.Failure? {
      var i :| 0 <= i < |keys| && keys[i] !in domainPoints
        && picked.error == InvalidShareIndex(keys[i]) && forall j :: 0 <= j < i ==> keys[j] in domainPoints;
      FirstMissingIsSmallest(updatedShares.Keys, domainPoints.Keys, i);
      return Failure(picked.error);
    }
    var (points, ys) := picked.value;
    forall k | k in updatedShares
      ensures k in domainPoints
    {
      SortedCovers(updatedShares.Keys, k);
    }
    assert updatedShares.Keys - domainPoints.Keys == {};
    var lagrange := TdecCombine.LagrangeBasisAt(points, xR);
    var yR := TpkeRefresh.FoldProducts(ys, lagrange);
    r := Success(yR);
  }

  /** Recovery fails exactly when an updated share has no domain point. */
  lemma RecoveryFailsOnlyWithoutPoint(xR: Scalar, domainPoints: map<nat, Scalar>, updatedShares: map<nat, G2>)
    ensures Recovery(xR, domainPoints, updatedShares).Failure?
      <==> exists k :: k in updatedShares && k !in domainPoints
    ensures Recovery(xR, domainPoints, updatedShares).Failure? ==>
      var k := Recovery(xR, domainPoints, updatedShares).error.shareIndex;
      k in updatedShares && k !in domainPoints
      && forall k' :: k' in updatedShares && k' !in domainPoints ==> k <= k'
  {
    var missing := updatedShares.Keys - domainPoints.Keys;
    if exists k :: k in updatedShares && k !in domainPoints {
      var k :| k in updatedShares && k !in domainPoints;
      assert k in missing;
      assert forall k' :: k' in updatedShares && k' !in domainPoints ==> k' in missing;
    } else {
      assert missing == {};
    }
  }

  /** Domain points of indices that hold no updated share play no part. */
  lemma RecoveryIgnoresExtraPoints(
    xR: Scalar, domainPoints: map<nat, Scalar>, otherPoints: map<nat, Scalar>, updatedShares: map<nat, G2>)
    requires forall k :: k in updatedShares ==> (k in domainPoints <==> k in otherPoints)
    requires forall k :: k in updatedShares && k in domainPoints ==> domainPoints[k] == otherPoints[k]
    ensures Recovery(xR, domainPoints, updatedShares) == Recovery(xR, otherPoints, updatedShares)
  {
    assert updatedShares.Keys - domainPoints.Keys == updatedShares.Keys - otherPoints.Keys;
    if updatedShares.Keys <= domainPoints.Keys {
      var keys := Sorted(updatedShares.Keys);
      assert ValuesAt(keys, domainPoints) == ValuesAt(keys, otherPoints);
    }
  }

  /** The points are pairwise distinct on the indices that hold an updated share. */
  predicate DistinctPointsFor(domainPoints: map<nat, Scalar>, shareIndices: set<nat>)
    requires shareIndices <= domainPoints.Keys
  {
    forall a, b :: a in shareIndices && b in shareIndices && a != b ==> domainPoints[a] != domainPoints[b]
  }

  /**
   * Exactness: when the updated shares are the values of a polynomial f with at
   * most as many coefficients as there are shares, at distinct points, recovery
   * yields f(x_r).
   */
  lemma RecoveryInterpolates(xR: Scalar, domainPoints: map<nat, Scalar>, updatedShares: map<nat, G2>, f: Poly)
    requires updatedShares.Keys <= domainPoints.Keys
    requires DistinctPointsFor(domainPoints, updatedShares.Keys)
    requires |f| <= |updatedShares.Keys|
    requires forall k :: k in updatedShares ==> updatedShares[k] == Eval(f, domainPoints[k])
    ensures Recovery(xR, domainPoints, updatedShares) == Success(Eval(f, xR))
  {
    assert updatedShares.Keys - domainPoints.Keys == {};
    var keys := Sorted(updatedShares.Keys);
    var xs := ValuesAt(keys, domainPoints);
    SortedIncreasing(updatedShares.Keys);
    forall i, j | 0 <= i < j < |xs|
      ensures xs[i] != xs[j]
    {
      assert keys[i] < keys[j];
    }
    InterpolationOfValues(xs, ValuesAt(keys, updatedShares), f, xR);
  }

  /**
   * Shares of a polynomial p, each shifted by the values of dealt polynomials
   * that all vanish at x, recover p(x) there: at x = 0 the refreshed shares
   * give back the group secret, at x = x_r the share originally held at x_r.
   */
  lemma UpdatedSharesRecoverOriginal(
    x: Scalar, domainPoints: map<nat, Scalar>, updatedShares: map<nat, G2>, p: Poly, ds: seq<Poly>, width: nat)
    requires updatedShares.Keys <= domainPoints.Keys
    requires DistinctPointsFor(domainPoints, updatedShares.Keys)
    requires |p| <= |updatedShares.Keys| && width <= |updatedShares.Keys|
    requires forall j :: 0 <= j < |ds| ==> |ds[j]| == width && Eval(ds[j], x) == 0.0
    requires forall k :: k in updatedShares ==>
      updatedShares[k] == Eval(p, domainPoints[k]) + TpkeRefresh.DealtSum(ds, |ds|, domainPoints[k])
    ensures Recovery(x, domainPoints, updatedShares) == Success(Eval(p, x))
  {
    var q := Add(p, TpkeRefresh.SumPolys(ds, |ds|));
    TpkeRefresh.SumPolysWidth(ds, |ds|, width);
    SharesOfShiftedPolynomial(domainPoints, updatedShares, p, ds, q);
    RecoveryInterpolates(x, domainPoints, updatedShares, q);
    ShiftedEval(p, ds, q, x);
    TpkeRefresh.DealtSumZero(ds, |ds|, x);
  }

  /** p plus the sum of the dealt polynomials evaluates to p(y) + Σ_j d_j(y). */
  lemma ShiftedEval(p: Poly, ds: seq<Poly>, q: Poly, y: Scalar)
    requires q == Add(p, TpkeRefresh.SumPolys(ds, |ds|))
    ensures Eval(q, y) == Eval(p, y) + TpkeRefresh.DealtSum(ds, |ds|, y)
  {
    EvalAdd(p, TpkeRefresh.SumPolys(ds, |ds|), y);
    TpkeRefresh.SumPolysEval(ds, |ds|, y);
  }

  lemma SharesOfShiftedPolynomial(
    domainPoints: map<nat, Scalar>, updatedShares: map<nat, G2>, p: Poly, ds: seq<Poly>, q: Poly)
    requires updatedShares.Keys <= domainPoints.Keys
    requires q == Add(p, TpkeRefresh.SumPolys(ds, |ds|))
    requires forall k :: k in updatedShares ==>
      updatedShares[k] == Eval(p, domainPoints[k]) + TpkeRefresh.DealtSum(ds, |ds|, domainPoints[k])
    ensures forall k :: k in updatedShares ==> updatedShares[k] == Eval(q, domainPoints[k])
  {
    forall k | k in updatedShares
      ensures updatedShares[k] == Eval(q, domainPoints[k])
    {
      ShiftedEval(p, ds, q, domainPoints[k]);
    }
  }

  // ---------------------------------------------------------------------------
  // make_random_polynomial_with_root, prepare_share_updates_with_root

  /**
   * degree+1 random coefficients; the constant term is zeroed, then replaced by
   * minus the value at the root, so that the polynomial vanishes there.
   */
  method MakeRandomPolynomialWithRoot(degree: nat, root: Scalar, draws: seq<Scalar>) returns (poly: Poly)
    requires |draws| == degree + 1
    ensures poly == TpkeRefresh.ZeroedAt(root, draws[1..])
    ensures |poly| == degree + 1 && Eval(poly, root) == 0.0
    ensures poly[1..] == draws[1..]
  {
    poly := draws;
    poly := poly[0 := 0.0];
    assert poly[1..] == draws[1..];
    assert Eval(poly, root) == root * Eval(draws[1..], root);
    var newC0 := 0.0 - Eval(poly, root);
    poly := poly[0 := newC0];
    assert poly == [newC0] + draws[1..];
  }

  /** The update for a participant at point x_i with key pk_i: (pk_i·f(x_i), g·f(x_i)). */
  function ShareUpdateAt(updatePoly: Poly, pointAndKey: (Scalar, G2)): ShareUpdate
  {
    var eval := Eval(updatePoly, pointAndKey.0);
    ShareUpdate(pointAndKey.1 * eval, G1Generator * eval)
  }

  /**
   * A transcript dealt from an update polynomial: one commitment g·c_j per
   * coefficient, and an update for exactly the given share indices.
   */
  predicate DealtFrom(t: UpdateTranscript, domainPointsAndKeys: map<nat, (Scalar, G2)>, updatePoly: Poly)
  {
    t.coeffs == Scale(G1Generator, updatePoly)
    && t.updates.Keys == domainPointsAndKeys.Keys
    && forall i :: i in domainPointsAndKeys ==> t.updates[i] == ShareUpdateAt(updatePoly, domainPointsAndKeys[i])
  }

  /** `threshold - 1` underflows a u32 and panics for a threshold of 0. */
  method PrepareShareUpdatesWithRoot(
    domainPointsAndKeys: map<nat, (Scalar, G2)>, root: Scalar, threshold: nat, draws: seq<Scalar>)
    returns (t: UpdateTranscript)
    requires threshold >= 1 && |draws| == threshold
    ensures |t.coeffs| == threshold
    ensures DealtFrom(t, domainPointsAndKeys, TpkeRefresh.ZeroedAt(root, draws[1..]))
  {
    var updatePoly := MakeRandomPolynomialWithRoot(threshold - 1, root, draws);
    var coeffCommitments := Scale(G1Generator, updatePoly);
    var shareUpdates := map i | i in domainPointsAndKeys :: ShareUpdateAt(updatePoly, domainPointsAndKeys[i]);
    t := UpdateTranscript(coeffCommitments, shareUpdates);
  }

  /** A refresh deals a polynomial with root 0: its constant-term commitment is the identity. */
  method CreateRefreshUpdates(domainPointsAndKeys: map<nat, (Scalar, G2)>, threshold: nat, draws: seq<Scalar>)
    returns (t: UpdateTranscript)
    requires threshold >= 1 && |draws| == threshold
    ensures |t.coeffs| == threshold && t.coeffs[0] == 0.0
    ensures DealtFrom(t, domainPointsAndKeys, TpkeRefresh.ZeroedAt(0.0, draws[1..]))
  {
    t := PrepareShareUpdatesWithRoot(domainPointsAndKeys, 0.0, threshold, draws);
  }

  /** A recovery deals a polynomial with root x_r. */
  method CreateRecoveryUpdates(domainPointsAndKeys: map<nat, (Scalar, G2)>, xR: Scalar, threshold: nat, draws: seq<Scalar>)
    returns (t: UpdateTranscript)
    requires threshold >= 1 && |draws| == threshold
    ensures |t.coeffs| == threshold && Eval(t.coeffs, xR) == 0.0
    ensures DealtFrom(t, domainPointsAndKeys, TpkeRefresh.ZeroedAt(xR, draws[1..]))
  {
    t := PrepareShareUpdatesWithRoot(domainPointsAndKeys, xR, threshold, draws);
    EvalScale(G1Generator, TpkeRefresh.ZeroedAt(xR, draws[1..]), xR);
  }

  // ---------------------------------------------------------------------------
  // ShareUpdate::verify, verify_recovery, verify_refresh

  /** e(g, update) = e(commitment, pk), reported as Ok(true) or as an error, never as Ok(false). */
  function VerifyShareUpdate(u: ShareUpdate, targetValidatorPublicKey: G2): (r: Outcome<bool>)
    ensures r != Success(false)
    ensures r == Success(true) <==> Pairing(G1Generator, u.update) == Pairing(u.commitment, targetValidatorPublicKey)
    ensures r.Failure? ==> r.error == InvalidShareUpdate
  {
    if Pairing(G1Generator, u.update) == Pairing(u.commitment, targetValidatorPublicKey) then Success(true)
    else Failure(InvalidShareUpdate)
  }

  /** An update made for a key verifies against that key. */
  lemma DealtUpdateVerifies(updatePoly: Poly, x: Scalar, pk: G2)
    ensures VerifyShareUpdate(ShareUpdateAt(updatePoly, (x, pk)), pk) == Success(true)
  {
    var e := Eval(updatePoly, x);
    assert G1Generator * (pk * e) == (G1Generator * e) * pk;
  }

  /** Soundness: an update that verifies is the commitment's exponent times the key. */
  lemma VerifiedUpdateMatchesCommitment(u: ShareUpdate, pk: G2)
    requires VerifyShareUpdate(u, pk) == Success(true)
    ensures u.update == u.commitment * pk
  {
  }

  /** The update at index verifies against an existing key, and matches its reconstructed commitment if there is one. */
  predicate UpdateChecksOut(t: UpdateTranscript, validatorPublicKeys: map<nat, G2>, reconstructed: seq<G1>, index: nat)
    requires index in t.updates
  {
    index in validatorPublicKeys
    && VerifyShareUpdate(t.updates[index], validatorPublicKeys[index]) == Success(true)
    && (index < |reconstructed| ==> reconstructed[index] == t.updates[index].commitment)
  }

  /** Root 0: the constant-term commitment is the identity; otherwise the commitments vanish at the root. */
  predicate RootChecksOut(coeffs: seq<G1>, root: Scalar)
  {
    |coeffs| > 0 && if root == 0.0 then coeffs[0] == 0.0 else Eval(coeffs, root) == 0.0
  }

  predicate IndicesInDomain(t: UpdateTranscript, domain: seq<Scalar>)
  {
    forall index :: index in t.updates ==> index < |domain|
  }

  /**
   * The inputs on which `verify_recovery` does not panic, whatever order it
   * visits the updates in: every update has a key and verifies, every update
   * with a reconstructed commitment matches it, and when no index is out of
   * range the commitments fit the root. The reconstructed commitments are the
   * FFT of the coefficient commitments, which is cut to the domain's size
   * first; the root check reads all of them.
   */
  predicate VerifyRecoveryDefined(t: UpdateTranscript, validatorPublicKeys: map<nat, G2>, domain: seq<Scalar>, root: Scalar)
  {
    (forall index :: index in t.updates ==>
       UpdateChecksOut(t, validatorPublicKeys, Fft(t.coeffs, domain), index))
    && (IndicesInDomain(t, domain) ==> RootChecksOut(t.coeffs, root))
  }

  /**
   * `verify_recovery`: Ok(true) exactly when every update's index is inside the
   * domain; then every update commitment is the FFT of the coefficient
   * commitments at its index and the coefficient commitments fit the root.
   */
  method VerifyRecovery(t: UpdateTranscript, validatorPublicKeys: map<nat, G2>, domain: seq<Scalar>, root: Scalar)
    returns (r: Outcome<bool>)
    requires VerifyRecoveryDefined(t, validatorPublicKeys, domain, root)
    ensures r != Success(false)
    ensures r.Success? <==> IndicesInDomain(t, domain)
    ensures r.Success? ==>
      RootChecksOut(t.coeffs, root)
      && forall index :: index in t.updates ==> t.updates[index].commitment == Fft(t.coeffs, domain)[index]
    ensures r.Failure? ==>
      r.error.InvalidShareIndex? && r.error.shareIndex in t.updates && r.error.shareIndex >= |domain|
  {
    var reconstructedCommitments := Fft(t.coeffs, domain);
    var remaining := t.updates.Keys;
    while remaining != {}
      invariant remaining <= t.updates.Keys
      invariant forall index :: index in t.updates.Keys - remaining ==> index < |domain|
      decreases remaining
    {
      var index: nat :| index in remaining;
      var update := t.updates[index];
      assert UpdateChecksOut(t, validatorPublicKeys, reconstructedCommitments, index);
      var verified := VerifyShareUpdate(update, validatorPublicKeys[index]);
      assert verified == Success(true);
      if index >= |reconstructedCommitments| {
        return Failure(InvalidShareIndex(index));
      }
      assert reconstructedCommitments[index] == update.commitment;
      assert forall k :: k in t.updates.Keys - (remaining - {index}) ==> k == index || k in t.updates.Keys - remaining;
      remaining := remaining - {index};
    }
    assert t.updates.Keys - remaining == t.updates.Keys;
    assert IndicesInDomain(t, domain);
    if root == 0.0 {
      assert t.coeffs[0] == 0.0;
    } else {
      var n := |t.coeffs|;
      var i := n - 1;
      var acc := t.coeffs[i];
      EvalSuffix(t.coeffs, i, root);
      while i > 0
        invariant 0 <= i < n
        invariant acc == Eval(t.coeffs[i..], root)
      {
        i := i - 1;
        EvalSuffix(t.coeffs, i, root);
        acc := t.coeffs[i] + acc * root;
      }
      assert t.coeffs[0..] == t.coeffs;
      assert acc == 0.0;
    }
    r := Success(true);
  }

  /** A refresh transcript is checked with root 0. */
  method VerifyRefresh(t: UpdateTranscript, validatorPublicKeys: map<nat, G2>, domain: seq<Scalar>)
    returns (r: Outcome<bool>)
    requires VerifyRecoveryDefined(t, validatorPublicKeys, domain, 0.0)
    ensures r != Success(false)
    ensures r.Success? <==> IndicesInDomain(t, domain)
    ensures r.Success? ==> |t.coeffs| > 0 && t.coeffs[0] == 0.0
  {
    r := VerifyRecovery(t, validatorPublicKeys, domain, 0.0);
  }

  /**
   * As written, `verify_recovery` checks the root on all the coefficient
   * commitments but matches the updates against the FFT of only the first
   * domain-size of them. Two commitments over a one-element domain pass with a
   * nonzero root while the accepted update commitment is not the committed
   * polynomial's value, and the polynomial the updates do follow (the cut one)
   * does not vanish at the root.
   */
  lemma RecoveryAcceptsOverlongCommitments()
    ensures var t := UpdateTranscript([-2.0, 1.0], map[0 := ShareUpdate(-2.0, -2.0)]);
      VerifyRecoveryDefined(t, map[0 := 1.0], [1.0], 2.0) && IndicesInDomain(t, [1.0])
      && t.updates[0].commitment != Eval(t.coeffs, 1.0)
      && t.updates[0].commitment == Eval(t.coeffs[..1], 1.0)
      && Eval(t.coeffs[..1], 2.0) != 0.0
  {
    var t := UpdateTranscript([-2.0, 1.0], map[0 := ShareUpdate(-2.0, -2.0)]);
    FftOfLongVectorIsNotEvaluation();
    assert t.coeffs[..1] == [-2.0];
    assert Eval(t.coeffs, 2.0) == -2.0 + 2.0 * Eval([1.0], 2.0);
    assert UpdateChecksOut(t, map[0 := 1.0], Fft(t.coeffs, [1.0]), 0);
  }

  /**
   * `verify_recovery` with the length check its authors left as a to-do:
   * more coefficient commitments than domain elements are rejected as an
   * invalid share update before anything else. What it accepts then has every
   * update commitment on the committed polynomial, which fits the root.
   */
  method VerifyRecoveryChecked(t: UpdateTranscript, validatorPublicKeys: map<nat, G2>, domain: seq<Scalar>, root: Scalar)
    returns (r: Outcome<bool>)
    requires |t.coeffs| <= |domain| ==> VerifyRecoveryDefined(t, validatorPublicKeys, domain, root)
    ensures r != Success(false)
    ensures r.Success? <==> |t.coeffs| <= |domain| && IndicesInDomain(t, domain)
    ensures r.Success? ==>
      RootChecksOut(t.coeffs, root)
      && forall index :: index in t.updates ==>
           index < |domain| && t.updates[index].commitment == Eval(t.coeffs, domain[index])
    ensures |t.coeffs| > |domain| ==> r == Failure(InvalidShareUpdate)
  {
    if |t.coeffs| > |domain| {
      return Failure(InvalidShareUpdate);
    }
    r := VerifyRecovery(t, validatorPublicKeys, domain, root);
  }

  function PublicKeysOf(domainPointsAndKeys: map<nat, (Scalar, G2)>): (keys: map<nat, G2>)
    ensures keys.Keys == domainPointsAndKeys.Keys
  {
    map i | i in domainPointsAndKeys :: domainPointsAndKeys[i].1
  }

  /**
   * Completeness: a transcript dealt from a polynomial that vanishes at the root,
   * to participants whose domain points are the domain elements at their
   * indices, passes `verify_recovery` without panicking and returns Ok(true).
   */
  lemma DealtTranscriptVerifies(
    t: UpdateTranscript, domainPointsAndKeys: map<nat, (Scalar, G2)>, updatePoly: Poly, domain: seq<Scalar>, root: Scalar)
    requires DealtFrom(t, domainPointsAndKeys, updatePoly)
    requires 0 < |updatePoly| <= |domain| && Eval(updatePoly, root) == 0.0
    requires forall i :: i in domainPointsAndKeys ==> i < |domain| && domainPointsAndKeys[i].0 == domain[i]
    ensures VerifyRecoveryDefined(t, PublicKeysOf(domainPointsAndKeys), domain, root)
    ensures IndicesInDomain(t, domain)
  {
    var pks := PublicKeysOf(domainPointsAndKeys);
    var reconstructed := Fft(t.coeffs, domain);
    assert reconstructed == EvalAll(t.coeffs, domain);
    forall index | index in t.updates
      ensures UpdateChecksOut(t, pks, reconstructed, index)
    {
      var (x, pk) := domainPointsAndKeys[index];
      DealtUpdateVerifies(updatePoly, x, pk);
      EvalScale(G1Generator, updatePoly, x);
    }
    EvalScale(G1Generator, updatePoly, root);
  }

  // ---------------------------------------------------------------------------
  // create_decryption_share_precomputed

  /** The domain points ordered by share index. */
  function SortedPoints(domainPointsMap: map<nat, Scalar>): (points: seq<Scalar>)
    ensures |points| == |domainPointsMap.Keys|
  {
    ValuesAt(Sorted(domainPointsMap.Keys), domainPointsMap)
  }

  /** The rank of a share index among the indices of the map. */
  function Rank(domainPointsMap: map<nat, Scalar>, shareIndex: nat): (rank: nat)
    requires shareIndex in domainPointsMap
    ensures rank < |domainPointsMap.Keys|
    ensures SortedPoints(domainPointsMap)[rank] == domainPointsMap[shareIndex]
  {
    SortedCovers(domainPointsMap.Keys, shareIndex);
    IndexOf(Sorted(domainPointsMap.Keys), shareIndex)
  }

  /** The target-0 Lagrange coefficient of a share index among all points of the map. */
  function OwnCoefficient(domainPointsMap: map<nat, Scalar>, shareIndex: nat): Scalar
    requires shareIndex in domainPointsMap
  {
    Coeffs(SortedPoints(domainPointsMap), 0.0)[Rank(domainPointsMap, shareIndex)]
  }

  /** The index at position j of the ascending order has rank j. */
  lemma RankOfPosition(domainPointsMap: map<nat, Scalar>, j: nat)
    requires j < |domainPointsMap.Keys|
    ensures Rank(domainPointsMap, Sorted(domainPointsMap.Keys)[j]) == j
  {
    var keys := Sorted(domainPointsMap.Keys);
    SortedIncreasing(domainPointsMap.Keys);
    IndexOfUnique(keys, keys[j], j);
  }

  /**
   * Sorts the points by share index, computes the target-0 coefficients over
   * them, and creates the precomputed share with the coefficient at the rank of
   * the own share index.
   */
  method CreateDecryptionSharePrecomputed(
    privateKeyShare: G2, header: CiphertextHeader, aad: seq<byte>, decryptionKey: Scalar,
    shareIndex: nat, domainPointsMap: map<nat, Scalar>, check: HeaderCheck)
    returns (r: Outcome<DecryptionSharePrecomputed>)
    requires check(header, aad) ==> decryptionKey != 0.0
    ensures shareIndex !in domainPointsMap ==> r == Failure(InvalidShareIndex(shareIndex))
    ensures shareIndex in domainPointsMap && !check(header, aad) ==>
      r == Failure(ThresholdEncryptionError(CiphertextVerificationFailed))
    ensures shareIndex in domainPointsMap && check(header, aad) ==>
      r.Success? && r.value == CreatePrecomputedUnchecked(
        shareIndex, decryptionKey, privateKeyShare, header,
        OwnCoefficient(domainPointsMap, shareIndex)).value
  {
    var sortedIndices := Sorted(domainPointsMap.Keys);
    var onlyDomainPoints := ValuesAt(sortedIndices, domainPointsMap);
    var lagrangeCoeffs := TdecCombine.PrepareCombineSimple(onlyDomainPoints);
    if shareIndex !in domainPointsMap {
      return Failure(InvalidShareIndex(shareIndex));
    }
    SortedCovers(domainPointsMap.Keys, shareIndex);
    var adjustedShareIndex := IndexOf(sortedIndices, shareIndex);
    var lagrangeCoeff := lagrangeCoeffs[adjustedShareIndex];
    match CreatePrecomputed(shareIndex, decryptionKey, privateKeyShare, header, aad, lagrangeCoeff, check)
    case Ok(share) => r := Success(share);
    case Err(e) => r := Failure(ThresholdEncryptionError(e));
  }

  /** Share j is the one the index at position j of the ascending order creates for key share f(x). */
  predicate CreatedInIndexOrder(
    domainPointsMap: map<nat, Scalar>, shares: seq<DecryptionSharePrecomputed>, u: G1, f: Poly, j: nat)
    requires j < |shares| == |domainPointsMap.Keys|
  {
    var k := Sorted(domainPointsMap.Keys)[j];
    shares[j].decryptionShare == Pairing(u * OwnCoefficient(domainPointsMap, k), Eval(f, domainPointsMap[k]))
  }

  /** The share at position j is the honest precomputed share for the j-th sorted point. */
  lemma HonestAtPosition(
    domainPointsMap: map<nat, Scalar>, shares: seq<DecryptionSharePrecomputed>, u: G1, f: Poly, j: nat)
    requires j < |shares| == |domainPointsMap.Keys|
    requires CreatedInIndexOrder(domainPointsMap, shares, u, f, j)
    ensures TdecCombine.HonestPrecomputedShare(shares, SortedPoints(domainPointsMap), u, f, j)
  {
    RankOfPosition(domainPointsMap, j);
  }

  /**
   * Shares created this way by every index of the map, taken in index order,
   * for key shares f(x_i), combine to e(U, f(0)) when the points are distinct
   * and f has at most as many coefficients as there are points.
   */
  lemma PrecomputedSharesOfEveryIndexReconstruct(
    domainPointsMap: map<nat, Scalar>, shares: seq<DecryptionSharePrecomputed>, u: G1, f: Poly)
    requires DistinctPointsFor(domainPointsMap, domainPointsMap.Keys)
    requires |f| <= |domainPointsMap.Keys| && |shares| == |domainPointsMap.Keys|
    requires forall j :: 0 <= j < |shares| ==> CreatedInIndexOrder(domainPointsMap, shares, u, f, j)
    ensures TdecCombine.ShareCombinePrecomputed(shares) == Pairing(u, Eval(f, 0.0))
  {
    var keys := Sorted(domainPointsMap.Keys);
    var xs := SortedPoints(domainPointsMap);
    SortedIncreasing(domainPointsMap.Keys);
    forall i, j | 0 <= i < j < |xs|
      ensures xs[i] != xs[j]
    {
      assert keys[i] < keys[j];
    }
    forall j | 0 <= j < |xs|
      ensures TdecCombine.HonestPrecomputedShare(shares, xs, u, f, j)
    {
      HonestAtPosition(domainPointsMap, shares, u, f, j);
    }
    TdecCombine.ShareCombinePrecomputedReconstructs(shares, xs, u, f);
  }
}
