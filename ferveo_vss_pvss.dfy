/**
 * The older PVSS transcripts of ferveo/src/vss/pvss.rs, used by the older DKG
 * state machine of ferveo/src/dkg/pv.rs.
 *
 * The transcript layout (coeffs, shares, sigma), the optimistic check and
 * element-wise aggregation are those of the newer generation and are shared
 * with `FerveoPvss`. This generation differs in the degree of the dealt
 * polynomial (shares_num - security_threshold), in a full check that zips the
 * validators with the shares, and in an aggregation check that counts the
 * stored transcripts and ignores the outcome of the full check.
 *
 * The validator records come from the `ferveo_common` crate, which is not
 * part of this model; they are declared here with the fields the code reads.
 */
module VssPvss {
  import opened Field
  import opened Polynomial
  import opened EvaluationDomain
  import opened NatSets
  import opened FerveoPvss

  /** A validator of the consensus set: voting power, address and encryption key. */
  datatype TendermintValidator = TendermintValidator(power: nat, address: string, publicKey: G2)

  /** A DKG participant: its consensus identity and the share index it was given. */
  datatype DkgValidator = DkgValidator(validator: TendermintValidator, shareIndex: nat)

  /** The `anyhow` errors of this generation, one per message. */
  datatype PvError =
    | DomainUnavailable
    | NotInValidatorSet
    | UnknownDealer
    | RepeatDealer(dealer: nat)
    | InvalidPvssTranscript
    | AggregationMismatch
    | InsufficientVerifiedShares
    | WrongFinalKey
    | NotEnoughTranscripts
    | WrongStateToDeal
    | WrongStateToVerify
    | WrongStateToApply
    | InvalidAggregate

  datatype PvResult<T> = Ok(value: T) | Err(error: PvError)

  // ---------------------------------------------------------------------------
  // Dealing

  /**
   * t is dealt from phi: validator j receives the entry at its share index of
   * phi's evaluation over the domain (an FFT, so phi is cut to the domain's
   * size first), encrypted under its key.
   */
  predicate OldDealtTo(t: Pvss, phi: Poly, validators: seq<DkgValidator>, domain: seq<Scalar>)
  {
    |phi| > 0
    && t.coeffs == Scale(G1Generator, phi)
    && |t.shares| == |validators|
    && (forall j :: 0 <= j < |validators| ==>
          validators[j].shareIndex < |domain|
          && t.shares[j] == validators[j].validator.publicKey * Fft(phi, domain)[validators[j].shareIndex])
    && t.sigma == G2Generator * phi[0]
  }

  /**
   * `PubliclyVerifiableSS::new`: a polynomial of degree shares_num -
   * security_threshold whose drawn constant term is replaced by the secret,
   * evaluated over the whole domain by an FFT; validator j gets the evaluation
   * at its share index. With a security threshold of 0 and a power-of-two
   * shares_num the polynomial is one coefficient longer than the domain, and
   * the FFT drops its top coefficient. One share per validator by construction, so the length check
   * cannot fail. `draws` stands for the random polynomial.
   */
  method NewTranscript(
    s: Scalar, sharesNum: nat, securityThreshold: nat, validators: seq<DkgValidator>, domain: seq<Scalar>, draws: seq<Scalar>)
    returns (r: PvResult<Pvss>)
    requires securityThreshold <= sharesNum && |draws| == sharesNum - securityThreshold + 1
    requires forall j :: 0 <= j < |validators| ==> validators[j].shareIndex < |domain|
    ensures r.Ok?
    ensures |r.value.coeffs| == sharesNum - securityThreshold + 1 && |r.value.shares| == |validators|
    ensures r.value.coeffs[0] == G1Generator * s && r.value.sigma == G2Generator * s
    ensures OldDealtTo(r.value, draws[0 := s], validators, domain)
    ensures |draws| <= |domain| ==> forall j :: 0 <= j < |validators| ==>
      r.value.shares[j] == validators[j].validator.publicKey * Eval(draws[0 := s], domain[validators[j].shareIndex])
  {
    var phi := draws[0 := s];
    var evals := Fft(phi, domain);
    var coeffs := Scale(G1Generator, phi);
    var shares := seq(|validators|, j requires 0 <= j < |validators| =>
      validators[j].validator.publicKey * evals[validators[j].shareIndex]);
    ScaleAt(G1Generator, phi, 0);
    var t := Pvss(coeffs, shares, G2Generator * s);
    assert OldDealtTo(t, phi, validators, domain);
    r := Ok(t);
  }

  // ---------------------------------------------------------------------------
  // verify_full

  /** e(g, y) = e(A_i, ek_i) for the validator's commitment A_i. */
  predicate PairVerifies(commitment: seq<G1>, v: DkgValidator, y: G2)
    requires v.shareIndex < |commitment|
  {
    Pairing(G1Generator, y) == Pairing(commitment[v.shareIndex], v.validator.publicKey)
  }

  /**
   * The zipped pairs are checked in order and `all` stops at the first failure,
   * so only the indices reached are read: the inputs on which the check does
   * not panic.
   */
  predicate PairsDefined(commitment: seq<G1>, validators: seq<DkgValidator>, shares: seq<G2>)
    decreases |validators|
  {
    |validators| == 0 || |shares| == 0
    || (validators[0].shareIndex < |commitment|
        && (PairVerifies(commitment, validators[0], shares[0]) ==> PairsDefined(commitment, validators[1..], shares[1..])))
  }

  /** `zip(...).all(...)`: every pair up to the shorter list verifies. */
  function PairsVerify(commitment: seq<G1>, validators: seq<DkgValidator>, shares: seq<G2>): bool
    requires PairsDefined(commitment, validators, shares)
    decreases |validators|
  {
    |validators| == 0 || |shares| == 0
    || (PairVerifies(commitment, validators[0], shares[0]) && PairsVerify(commitment, validators[1..], shares[1..]))
  }

  /** Every pair up to the shorter list names a commitment and verifies. */
  predicate AllPairsVerify(commitment: seq<G1>, validators: seq<DkgValidator>, shares: seq<G2>)
  {
    forall j :: 0 <= j < |validators| && j < |shares| ==>
      validators[j].shareIndex < |commitment| && PairVerifies(commitment, validators[j], shares[j])
  }

  /** The short-circuiting check holds exactly when every zipped pair verifies; the zip truncates. */
  lemma {:induction false} PairsVerifyAll(commitment: seq<G1>, validators: seq<DkgValidator>, shares: seq<G2>)
    requires PairsDefined(commitment, validators, shares)
    ensures PairsVerify(commitment, validators, shares) <==> AllPairsVerify(commitment, validators, shares)
    decreases |validators|
  {
    if |validators| != 0 && |shares| != 0 && PairVerifies(commitment, validators[0], shares[0]) {
      PairsVerifyAll(commitment, validators[1..], shares[1..]);
      if AllPairsVerify(commitment, validators[1..], shares[1..]) {
        forall j | 0 <= j < |validators| && j < |shares|
          ensures validators[j].shareIndex < |commitment| && PairVerifies(commitment, validators[j], shares[j])
        {
          if j > 0 {
            assert validators[j] == validators[1..][j - 1] && shares[j] == shares[1..][j - 1];
          }
        }
      }
      if AllPairsVerify(commitment, validators, shares) {
        forall j | 0 <= j < |validators[1..]| && j < |shares[1..]|
          ensures validators[1..][j].shareIndex < |commitment| && PairVerifies(commitment, validators[1..][j], shares[1..][j])
        {
          assert validators[1..][j] == validators[j + 1] && shares[1..][j] == shares[j + 1];
        }
      }
    }
  }

  /** When every zipped pair verifies, the check reads only commitments that exist. */
  lemma {:induction false} AllPairsDefined(commitment: seq<G1>, validators: seq<DkgValidator>, shares: seq<G2>)
    requires AllPairsVerify(commitment, validators, shares)
    ensures PairsDefined(commitment, validators, shares)
    decreases |validators|
  {
    if |validators| != 0 && |shares| != 0 {
      forall j | 0 <= j < |validators[1..]| && j < |shares[1..]|
        ensures validators[1..][j].shareIndex < |commitment| && PairVerifies(commitment, validators[1..][j], shares[1..][j])
      {
        assert validators[1..][j] == validators[j + 1] && shares[1..][j] == shares[j + 1];
      }
      AllPairsDefined(commitment, validators[1..], shares[1..]);
    }
  }

  /** The inputs on which `verify_full` does not panic. */
  predicate FullCheckDefined(t: Pvss, validators: seq<DkgValidator>, domain: seq<Scalar>)
  {
    PairsDefined(Fft(t.coeffs, domain), validators, t.shares)
  }

  /**
   * `verify_full`: the share commitments are the FFT of the coefficient
   * commitments over the domain, and every (validator, share) pair of the zip
   * passes check #4. It holds exactly when every zipped pair verifies.
   */
  function VerifyFullOld(t: Pvss, validators: seq<DkgValidator>, domain: seq<Scalar>): (ok: bool)
    requires FullCheckDefined(t, validators, domain)
    ensures ok <==> AllPairsVerify(Fft(t.coeffs, domain), validators, t.shares)
  {
    PairsVerifyAll(Fft(t.coeffs, domain), validators, t.shares);
    PairsVerify(Fft(t.coeffs, domain), validators, t.shares)
  }

  /** Completeness of the full check: a dealt transcript passes it. */
  lemma DealtPassesFullOld(t: Pvss, phi: Poly, validators: seq<DkgValidator>, domain: seq<Scalar>)
    requires OldDealtTo(t, phi, validators, domain)
    ensures FullCheckDefined(t, validators, domain) && VerifyFullOld(t, validators, domain)
  {
    var commitment := Fft(t.coeffs, domain);
    forall j | 0 <= j < |validators| && j < |t.shares|
      ensures validators[j].shareIndex < |commitment| && PairVerifies(commitment, validators[j], t.shares[j])
    {
      var i := validators[j].shareIndex;
      FftScale(G1Generator, phi, domain, i);
      assert commitment[i] == G1Generator * Fft(phi, domain)[i];
    }
    AllPairsDefined(commitment, validators, t.shares);
  }

  // ---------------------------------------------------------------------------
  // verify_aggregation

  /** The transcripts stored by the DKG, in ascending key order, each with a constant-term commitment. */
  predicate StoredHaveConstantTerm(vss: map<nat, Pvss>)
  {
    forall k :: k in vss ==> |vss[k].coeffs| > 0
  }

  /** Σ coeffs[0] over the stored transcripts, in key order. */
  function StoredConstantSum(vss: map<nat, Pvss>): G1
    requires StoredHaveConstantTerm(vss)
  {
    var ts := ValuesInKeyOrder(vss);
    ColumnSum(ts, CoeffColumn, 0, |ts|)
  }

  /**
   * `verify_aggregation` as written: the full check runs but its result is
   * dropped; the aggregate is accepted, with the number of stored transcripts,
   * exactly when its constant-term commitment is the sum of theirs.
   */
  method VerifyAggregationOld(agg: Pvss, validators: seq<DkgValidator>, domain: seq<Scalar>, vss: map<nat, Pvss>)
    returns (r: PvResult<nat>)
    requires FullCheckDefined(agg, validators, domain) && |agg.coeffs| > 0
    requires StoredHaveConstantTerm(vss)
    ensures r.Ok? <==> StoredConstantSum(vss) == agg.coeffs[0]
    ensures r.Ok? ==> r.value == |vss|
    ensures r.Err? ==> r.error == AggregationMismatch
  {
    var _ := VerifyFullOld(agg, validators, domain);
    var ts := ValuesInKeyOrder(vss);
    var y: G1 := 0.0;
    var sharesTotal := 0;
    for i := 0 to |ts|
      invariant y == ColumnSum(ts, CoeffColumn, 0, i)
      invariant sharesTotal == i
    {
      y := y + ts[i].coeffs[0];
      sharesTotal := sharesTotal + 1;
    }
    if y == agg.coeffs[0] {
      r := Ok(sharesTotal);
    } else {
      r := Err(AggregationMismatch);
    }
  }

  /**
   * An aggregate whose only share fails check #4 but whose constant term
   * matches the stored transcript: the full check rejects it, and
   * `verify_aggregation` as written accepts it.
   */
  lemma AggregationIgnoresFullCheck()
    ensures
      var v := DkgValidator(TendermintValidator(1, "validator_0", 1.0), 0);
      var agg := Pvss([1.0], [5.0], 1.0);
      var vss := map[0 := Pvss([1.0], [1.0], 1.0)];
      FullCheckDefined(agg, [v], [1.0]) && !VerifyFullOld(agg, [v], [1.0])
      && StoredHaveConstantTerm(vss) && StoredConstantSum(vss) == agg.coeffs[0]
  {
    var v := DkgValidator(TendermintValidator(1, "validator_0", 1.0), 0);
    var agg := Pvss([1.0], [5.0], 1.0);
    var vss := map[0 := Pvss([1.0], [1.0], 1.0)];
    assert Fft(agg.coeffs, [1.0]) == [1.0];
    assert vss.Keys == RangeSet(1);
    SortedRange(1);
    assert ValuesInKeyOrder(vss) == [Pvss([1.0], [1.0], 1.0)];
  }

  /**
   * `verify_aggregation` with the outcome of the full check honoured, as in
   * the newer generation: an aggregate is accepted only if every share
   * verifies and the constant terms match.
   */
  method VerifyAggregationChecked(agg: Pvss, validators: seq<DkgValidator>, domain: seq<Scalar>, vss: map<nat, Pvss>)
    returns (r: PvResult<nat>)
    requires FullCheckDefined(agg, validators, domain) && |agg.coeffs| > 0
    requires StoredHaveConstantTerm(vss)
    ensures r.Ok? <==> VerifyFullOld(agg, validators, domain) && StoredConstantSum(vss) == agg.coeffs[0]
    ensures r.Ok? ==> r.value == |vss| && AllPairsVerify(Fft(agg.coeffs, domain), validators, agg.shares)
    ensures r.Err? && !VerifyFullOld(agg, validators, domain) ==> r.error == InvalidAggregate
  {
    if !VerifyFullOld(agg, validators, domain) {
      return Err(InvalidAggregate);
    }
    r := VerifyAggregationOld(agg, validators, domain, vss);
  }

  // ---------------------------------------------------------------------------
  // decrypt_private_key_share

  /**
   * `decrypt_private_key_share`: the share at the validator's position times
   * the inverse decryption key; an index past the shares or a zero key panics.
   */
  function DecryptPrivateKeyShare(t: Pvss, decryptionKey: Scalar, validatorIndex: nat): (z: G2)
    requires validatorIndex < |t.shares| && decryptionKey != 0.0
    ensures z * decryptionKey == t.shares[validatorIndex]
  {
    var inv := Inverse(decryptionKey);
    assert t.shares[validatorIndex] * inv * decryptionKey == t.shares[validatorIndex] * (inv * decryptionKey);
    t.shares[validatorIndex] * inv
  }

  /**
   * A validator with decryption key dk (encryption key h·dk) decrypts its
   * dealt share to h times the FFT of phi at its share index.
   */
  lemma DecryptedShareIsEvaluation(t: Pvss, phi: Poly, validators: seq<DkgValidator>, domain: seq<Scalar>, j: nat, dk: Scalar)
    requires OldDealtTo(t, phi, validators, domain)
    requires j < |validators| && dk != 0.0 && validators[j].validator.publicKey == G2Generator * dk
    ensures j < |t.shares| && validators[j].shareIndex < |domain|
    ensures DecryptPrivateKeyShare(t, dk, j) == G2Generator * Fft(phi, domain)[validators[j].shareIndex]
  {
    var e := Fft(phi, domain)[validators[j].shareIndex];
    var z := DecryptPrivateKeyShare(t, dk, j);
    CancelKey(z, e, dk);
  }

  /** When phi fits the domain, the decrypted share is h·phi(x) at the validator's domain element x. */
  lemma DecryptedShareOfFittingPolynomial(
    t: Pvss, phi: Poly, validators: seq<DkgValidator>, domain: seq<Scalar>, j: nat, dk: Scalar)
    requires OldDealtTo(t, phi, validators, domain) && |phi| <= |domain|
    requires j < |validators| && dk != 0.0 && validators[j].validator.publicKey == G2Generator * dk
    ensures j < |t.shares| && validators[j].shareIndex < |domain|
    ensures DecryptPrivateKeyShare(t, dk, j) == G2Generator * Eval(phi, domain[validators[j].shareIndex])
  {
    DecryptedShareIsEvaluation(t, phi, validators, domain, j, dk);
    FftOfFittingVector(phi, domain, validators[j].shareIndex);
  }

  /** z·dk = (h·dk)·e with dk non-zero gives z = h·e. */
  lemma CancelKey(z: G2, e: Scalar, dk: Scalar)
    requires dk != 0.0 && z * dk == (G2Generator * dk) * e
    ensures z == G2Generator * e
  {
    assert (z - e) * dk == 0.0;
  }

  // ---------------------------------------------------------------------------
  // aggregate

  /**
   * `aggregate`: the element-wise sum of the transcripts the DKG stores, in
   * key order; `unwrap` on the first one panics when none is stored, and
   * `zip_eq` when lengths differ.
   */
  method AggregateStored(vss: map<nat, Pvss>) returns (agg: Pvss)
    requires |vss| > 0 && SameShape(ValuesInKeyOrder(vss))
    ensures IsAggregateOf(agg, ValuesInKeyOrder(vss))
    ensures |agg.coeffs| > 0 && StoredHaveConstantTerm(vss) ==> agg.coeffs[0] == StoredConstantSum(vss)
  {
    agg := AggregateNonEmpty(ValuesInKeyOrder(vss));
  }
}
