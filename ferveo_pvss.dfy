/**
 * Publicly verifiable secret sharing (PVSS) transcripts of the ferveo crate
 * (ferveo/src/pvss.rs): dealing, the optimistic and the full check, aggregation
 * and its check, and the refresh and handover of an aggregate.
 *
 * A transcript dealt from a polynomial phi to validators with encryption keys
 * ek_j commits to the coefficients (coeffs = g·phi), encrypts each validator's
 * evaluation (shares[j] = ek_j·phi(x_j)) and proves knowledge of the secret
 * (sigma = h·phi(0)); `DealtTo` states this. In the exponent model the pairing
 * checks become equations between these values, so completeness of every check
 * is a lemma about `DealtTo`.
 */
module FerveoPvss {
  import opened Field
  import opened Polynomial
  import opened EvaluationDomain
  import opened NatSets
  import opened TdecTypes
  import opened FerveoValidator
  import opened FerveoTypes
  import TpkeRefresh
  import FerveoRefresh

  datatype Pvss = Pvss(coeffs: seq<G1>, shares: seq<G2>, sigma: G2)

  datatype AggregatedTranscript = AggregatedTranscript(aggregate: Pvss, publicKey: G1)

  // ---------------------------------------------------------------------------
  // SecretPolynomial

  /** The dealer's secret polynomial, in a buffer that is wiped once used. */
  class SecretPolynomial {
    const coeffs: array<Scalar>

    /** phi(x) = s + draws[1]·x + ... + draws[degree]·x^degree: the drawn constant term is overwritten. */
    constructor (s: Scalar, degree: nat, draws: seq<Scalar>)
      requires |draws| == degree + 1
      ensures fresh(coeffs)
      ensures coeffs[..] == [s] + draws[1..]
    {
      var phi := new Scalar[|draws|](i requires 0 <= i < |draws| => draws[i]);
      phi[0] := s;
      assert phi[..] == [s] + draws[1..];
      coeffs := phi;
    }

    /** Every coefficient is set to zero in place. */
    method Zeroize()
      modifies coeffs
      ensures forall i :: 0 <= i < coeffs.Length ==> coeffs[i] == 0.0
    {
      for i := 0 to coeffs.Length
        invariant forall k :: 0 <= k < i ==> coeffs[k] == 0.0
      {
        coeffs[i] := 0.0;
      }
    }
  }

  // ---------------------------------------------------------------------------
  // Dealing

  /**
   * t is dealt from phi: the validator at position j receives phi at the
   * domain point of its share index, encrypted under its key.
   */
  predicate DealtTo(t: Pvss, phi: Poly, validators: seq<Validator>, domainPoints: seq<Scalar>)
  {
    |phi| > 0
    && t.coeffs == Scale(G1Generator, phi)
    && |t.shares| == |validators|
    && (forall j :: 0 <= j < |validators| ==>
          validators[j].shareIndex < |domainPoints|
          && t.shares[j] == validators[j].publicKey * Eval(phi, domainPoints[validators[j].shareIndex]))
    && t.sigma == G2Generator * phi[0]
  }

  /**
   * `PubliclyVerifiableSS::new`: a polynomial of degree threshold-1 with the
   * secret as constant term, one share per validator in share-index order.
   * The length check after the map cannot fail, so the result is always Ok.
   */
  method NewPvss(
    s: Scalar, securityThreshold: nat, validators: map<nat, Validator>, domainPoints: seq<Scalar>, draws: seq<Scalar>)
    returns (r: Outcome<Pvss>)
    requires securityThreshold >= 1 && |draws| == securityThreshold
    requires forall i :: i in validators ==> validators[i].shareIndex < |domainPoints|
    ensures r.Success?
    ensures |r.value.coeffs| == securityThreshold && |r.value.shares| == |validators|
    ensures r.value.coeffs[0] == G1Generator * s && r.value.sigma == G2Generator * s
    ensures DealtTo(r.value, [s] + draws[1..], ValuesInKeyOrder(validators), domainPoints)
  {
    var phi := new SecretPolynomial(s, securityThreshold - 1, draws);
    var poly := phi.coeffs[..];
    var evals := EvalAll(poly, domainPoints);
    var coeffs := Scale(G1Generator, poly);
    var recipients := ValuesInKeyOrder(validators);
    var shares := seq(|recipients|, j requires 0 <= j < |recipients| =>
      recipients[j].publicKey * evals[recipients[j].shareIndex]);
    // One share per validator by construction: the InsufficientValidators check after this point cannot fail.
    var t := Pvss(coeffs, shares, G2Generator * s);
    ScaleAt(G1Generator, poly, 0);
    assert DealtTo(t, poly, recipients, domainPoints);
    phi.Zeroize();
    r := Success(t);
  }

  /** `verify_optimistic`: e(F_0, h) = e(g, sigma), i.e. the committed constant term is the one sigma proves. */
  function VerifyOptimistic(t: Pvss): (ok: bool)
    requires |t.coeffs| > 0
    ensures ok <==> t.coeffs[0] == t.sigma
  {
    Pairing(t.coeffs[0], G2Generator) == Pairing(G1Generator, t.sigma)
  }

  /** A dealt transcript passes the optimistic check. */
  lemma DealtPassesOptimistic(t: Pvss, phi: Poly, validators: seq<Validator>, domainPoints: seq<Scalar>)
    requires DealtTo(t, phi, validators, domainPoints)
    ensures |t.coeffs| > 0 && VerifyOptimistic(t)
  {
    ScaleAt(G1Generator, phi, 0);
  }

  // ---------------------------------------------------------------------------
  // verify_validator_share, assert_no_share_duplicates, do_verify_full

  /**
   * Check #4 of section 4.2.3 of eprint 2022/898 for one validator:
   * e(G, Y_i) = e(A_i, ek_i), after looking up Y_i and A_i by share index.
   */
  function VerifyValidatorShare(shareCommitments: seq<G1>, encryptedShares: seq<G2>, shareIndex: nat, validatorPublicKey: G2)
    : (r: Outcome<bool>)
    ensures r.Failure? <==> shareIndex >= |encryptedShares| || shareIndex >= |shareCommitments|
    ensures r.Failure? ==> r.error == InvalidShareIndex(shareIndex)
    ensures r.Success? ==>
      (r.value <==> encryptedShares[shareIndex] == shareCommitments[shareIndex] * validatorPublicKey)
  {
    if shareIndex >= |encryptedShares| then Failure(InvalidShareIndex(shareIndex))
    else if shareIndex >= |shareCommitments| then Failure(InvalidShareIndex(shareIndex))
    else
      Success(Pairing(G1Generator, encryptedShares[shareIndex])
              == Pairing(shareCommitments[shareIndex], validatorPublicKey))
  }

  predicate DistinctShareIndices(validators: seq<Validator>)
  {
    forall i, j :: 0 <= i < j < |validators| ==> validators[i].shareIndex != validators[j].shareIndex
  }

  /** Two validators of the list carry share index d. */
  predicate IsRepeated(validators: seq<Validator>, d: nat)
  {
    exists i, j :: 0 <= i < j < |validators| && validators[i].shareIndex == d && validators[j].shareIndex == d
  }

  /** The first share index, scanning left to right, already seen (seen holds the indices before the list). */
  function FirstRepeatedIndex(validators: seq<Validator>, seen: set<nat>): Option<nat>
  {
    if |validators| == 0 then None
    else if validators[0].shareIndex in seen then Some(validators[0].shareIndex)
    else FirstRepeatedIndex(validators[1..], seen + {validators[0].shareIndex})
  }

  lemma {:induction false} FirstRepeatedIndexSpec(validators: seq<Validator>, seen: set<nat>)
    ensures FirstRepeatedIndex(validators, seen).None? <==>
      DistinctShareIndices(validators) && forall i :: 0 <= i < |validators| ==> validators[i].shareIndex !in seen
    ensures FirstRepeatedIndex(validators, seen).Some? ==>
      var d := FirstRepeatedIndex(validators, seen).value;
      exists j :: 0 <= j < |validators| && validators[j].shareIndex == d
        && (d in seen || exists i :: 0 <= i < j && validators[i].shareIndex == d)
  {
    if |validators| != 0 && validators[0].shareIndex !in seen {
      var v := validators[0];
      var rest := validators[1..];
      var seen' := seen + {v.shareIndex};
      FirstRepeatedIndexSpec(rest, seen');
      assert forall i :: 1 <= i < |validators| ==> validators[i] == rest[i - 1];
      if FirstRepeatedIndex(rest, seen').Some? {
        var d := FirstRepeatedIndex(rest, seen').value;
        var j :| 0 <= j < |rest| && rest[j].shareIndex == d
          && (d in seen' || exists i :: 0 <= i < j && rest[i].shareIndex == d);
        assert validators[j + 1].shareIndex == d;
        if d !in seen {
          if d == v.shareIndex {
            assert validators[0].shareIndex == d;
          } else {
            var i :| 0 <= i < j && rest[i].shareIndex == d;
            assert validators[i + 1].shareIndex == d;
          }
        }
      } else {
        forall i, j | 0 <= i < j < |validators|
          ensures validators[i].shareIndex != validators[j].shareIndex
        {
          if i != 0 {
            assert rest[i - 1].shareIndex != rest[j - 1].shareIndex;
          } else {
            assert rest[j - 1].shareIndex !in seen';
          }
        }
      }
    }
  }

  /**
   * `assert_no_share_duplicates` (its body is not part of this model): scans
   * the validators in order and reports the first share index seen twice.
   */
  function AssertNoShareDuplicates(validators: seq<Validator>): (r: Outcome<()>)
    ensures r.Success? <==> DistinctShareIndices(validators)
    ensures r.Failure? ==> r.error.DuplicatedShareIndex? && IsRepeated(validators, r.error.shareIndex)
  {
    FirstRepeatedIndexSpec(validators, {});
    match FirstRepeatedIndex(validators, {})
    case None => Success(())
    case Some(d) => Failure(DuplicatedShareIndex(d))
  }

  /** Validator v's share passes check #4. */
  predicate ShareVerifies(shareCommitments: seq<G1>, encryptedShares: seq<G2>, v: Validator)
  {
    VerifyValidatorShare(shareCommitments, encryptedShares, v.shareIndex, v.publicKey) == Success(true)
  }

  /** The validators checked in order; the first error or failed check decides. */
  function CheckShares(shareCommitments: seq<G1>, encryptedShares: seq<G2>, validators: seq<Validator>): Outcome<bool>
    decreases |validators|
  {
    if |validators| == 0 then Success(true)
    else
      match VerifyValidatorShare(shareCommitments, encryptedShares, validators[0].shareIndex, validators[0].publicKey)
      case Failure(e) => Failure(e)
      case Success(ok) =>
        if !ok then Success(false) else CheckShares(shareCommitments, encryptedShares, validators[1..])
  }

  /**
   * Ok(true) iff every validator's share verifies; otherwise the outcome is
   * that of the first validator whose share does not.
   */
  lemma {:induction false} CheckSharesOutcome(shareCommitments: seq<G1>, encryptedShares: seq<G2>, validators: seq<Validator>)
    ensures CheckShares(shareCommitments, encryptedShares, validators) == Success(true) <==>
      forall j :: 0 <= j < |validators| ==> ShareVerifies(shareCommitments, encryptedShares, validators[j])
    ensures CheckShares(shareCommitments, encryptedShares, validators) != Success(true) ==>
      exists j :: 0 <= j < |validators|
        && (forall i :: 0 <= i < j ==> ShareVerifies(shareCommitments, encryptedShares, validators[i]))
        && CheckShares(shareCommitments, encryptedShares, validators)
           == VerifyValidatorShare(shareCommitments, encryptedShares, validators[j].shareIndex, validators[j].publicKey)
    decreases |validators|
  {
    if |validators| != 0 {
      var rest := validators[1..];
      CheckSharesOutcome(shareCommitments, encryptedShares, rest);
      assert forall i :: 1 <= i < |validators| ==> validators[i] == rest[i - 1];
      if ShareVerifies(shareCommitments, encryptedShares, validators[0])
        && CheckShares(shareCommitments, encryptedShares, rest) != Success(true)
      {
        var j :| 0 <= j < |rest|
          && (forall i :: 0 <= i < j ==> ShareVerifies(shareCommitments, encryptedShares, rest[i]))
          && CheckShares(shareCommitments, encryptedShares, rest)
             == VerifyValidatorShare(shareCommitments, encryptedShares, rest[j].shareIndex, rest[j].publicKey);
        assert validators[j + 1] == rest[j];
      }
    }
  }

  /** `do_verify_full`: duplicate indices first, then check #4 for every validator against the FFT of the commitments. */
  function VerifyFull(coeffs: seq<G1>, encryptedShares: seq<G2>, validators: seq<Validator>, domain: seq<Scalar>): Outcome<bool>
  {
    match AssertNoShareDuplicates(validators)
    case Failure(e) => Failure(e)
    case Success(_) => CheckShares(Fft(coeffs, domain), encryptedShares, validators)
  }

  method DoVerifyFull(coeffs: seq<G1>, encryptedShares: seq<G2>, validators: seq<Validator>, domain: seq<Scalar>)
    returns (r: Outcome<bool>)
    ensures r == VerifyFull(coeffs, encryptedShares, validators, domain)
  {
    var noDuplicates := AssertNoShareDuplicates(validators);
    if noDuplicates.Failure? {
      return Failure(noDuplicates.error);
    }
    var shareCommitments := Fft(coeffs, domain);
    for j := 0 to |validators|
      invariant CheckShares(shareCommitments, encryptedShares, validators[j..])
        == CheckShares(shareCommitments, encryptedShares, validators)
    {
      var validator := validators[j];
      var isValid := VerifyValidatorShare(shareCommitments, encryptedShares, validator.shareIndex, validator.publicKey);
      assert validators[j..][0] == validator && validators[j..][1..] == validators[j + 1..];
      if isValid.Failure? {
        return Failure(isValid.error);
      }
      if !isValid.value {
        return Success(false);
      }
    }
    assert validators[|validators|..] == [];
    r := Success(true);
  }

  /**
   * Validator j holds share index j, and its domain point is the j-th element
   * of the evaluation domain.
   */
  predicate AtOwnPositions(validators: seq<Validator>, domainPoints: seq<Scalar>, domain: seq<Scalar>)
  {
    forall j :: 0 <= j < |validators| ==>
      validators[j].shareIndex == j && j < |domain| && j < |domainPoints| && domainPoints[j] == domain[j]
  }

  /**
   * Completeness of the full check: a transcript dealt to validators whose
   * share index is their position, at the domain elements of those indices,
   * passes `do_verify_full`.
   */
  lemma DealtPassesFull(t: Pvss, phi: Poly, validators: seq<Validator>, domainPoints: seq<Scalar>, domain: seq<Scalar>)
    requires DealtTo(t, phi, validators, domainPoints)
    requires |phi| <= |domain|
    requires AtOwnPositions(validators, domainPoints, domain)
    ensures VerifyFull(t.coeffs, t.shares, validators, domain) == Success(true)
  {
    var commitments := Fft(t.coeffs, domain);
    assert commitments == EvalAll(t.coeffs, domain);
    forall j | 0 <= j < |validators|
      ensures ShareVerifies(commitments, t.shares, validators[j])
    {
      DealtShareVerifies(t, phi, validators, domainPoints, domain, j);
    }
    CheckSharesOutcome(commitments, t.shares, validators);
    assert DistinctShareIndices(validators);
  }

  /** Each share of a dealt transcript matches the commitment at its validator's domain element. */
  lemma DealtShareVerifies(
    t: Pvss, phi: Poly, validators: seq<Validator>, domainPoints: seq<Scalar>, domain: seq<Scalar>, j: nat)
    requires DealtTo(t, phi, validators, domainPoints)
    requires |phi| <= |domain| && j < |validators|
    requires AtOwnPositions(validators, domainPoints, domain)
    ensures ShareVerifies(EvalAll(t.coeffs, domain), t.shares, validators[j])
  {
    var commitments := EvalAll(t.coeffs, domain);
    assert validators[j].shareIndex == j;
    var e := Eval(phi, domain[j]);
    EvalScale(G1Generator, phi, domain[j]);
    assert commitments[j] == G1Generator * e;
    assert t.shares[j] == validators[j].publicKey * e;
    assert t.shares[j] == commitments[j] * validators[j].publicKey;
  }

  /**
   * Soundness of check #4: a share that verifies is the key times the FFT of
   * the commitments at its index, which is the committed polynomial's value
   * there when the commitments fit the domain.
   */
  lemma VerifiedShareMatchesCommitment(t: Pvss, validators: seq<Validator>, domain: seq<Scalar>, j: nat)
    requires VerifyFull(t.coeffs, t.shares, validators, domain) == Success(true)
    requires j < |validators|
    ensures validators[j].shareIndex < |t.shares| && validators[j].shareIndex < |domain|
    ensures t.shares[validators[j].shareIndex] == Fft(t.coeffs, domain)[validators[j].shareIndex] * validators[j].publicKey
    ensures |t.coeffs| <= |domain| ==>
      t.shares[validators[j].shareIndex] == Eval(t.coeffs, domain[validators[j].shareIndex]) * validators[j].publicKey
  {
    CheckSharesOutcome(Fft(t.coeffs, domain), t.shares, validators);
    assert ShareVerifies(Fft(t.coeffs, domain), t.shares, validators[j]);
  }

  /**
   * The full check never reads the commitments past the domain's size: with
   * at least as many commitments as domain elements, any appended to them
   * leave the outcome unchanged.
   */
  lemma OverlongCommitmentsIgnored(
    coeffs: seq<G1>, extra: seq<G1>, encryptedShares: seq<G2>, validators: seq<Validator>, domain: seq<Scalar>)
    requires |coeffs| >= |domain|
    ensures VerifyFull(coeffs + extra, encryptedShares, validators, domain)
         == VerifyFull(coeffs, encryptedShares, validators, domain)
  {
    FftIgnoresTail(coeffs, extra, domain);
  }

  // ---------------------------------------------------------------------------
  // aggregate

  datatype Column = CoeffColumn | ShareColumn

  function Row(t: Pvss, column: Column): seq<real>
  {
    match column
    case CoeffColumn => t.coeffs
    case ShareColumn => t.shares
  }

  /** The sum of entry k of the chosen vector over the first n transcripts. */
  function ColumnSum(transcripts: seq<Pvss>, column: Column, k: nat, n: nat): real
    requires n <= |transcripts|
    requires forall i :: 0 <= i < n ==> k < |Row(transcripts[i], column)|
  {
    if n == 0 then 0.0 else ColumnSum(transcripts, column, k, n - 1) + Row(transcripts[n - 1], column)[k]
  }

  function SigmaSum(transcripts: seq<Pvss>, n: nat): G2
    requires n <= |transcripts|
  {
    if n == 0 then 0.0 else SigmaSum(transcripts, n - 1) + transcripts[n - 1].sigma
  }

  /** `zip_eq` panics unless every transcript has the first one's lengths. */
  predicate SameShape(transcripts: seq<Pvss>)
  {
    forall i :: 0 <= i < |transcripts| ==>
      |transcripts[i].coeffs| == |transcripts[0].coeffs| && |transcripts[i].shares| == |transcripts[0].shares|
  }

  /** agg is the element-wise sum of the transcripts: coefficients, shares and sigma. */
  predicate IsAggregateOf(agg: Pvss, transcripts: seq<Pvss>)
    requires |transcripts| > 0 && SameShape(transcripts)
  {
    |agg.coeffs| == |transcripts[0].coeffs|
    && |agg.shares| == |transcripts[0].shares|
    && (forall k :: 0 <= k < |agg.coeffs| ==> agg.coeffs[k] == ColumnSum(transcripts, CoeffColumn, k, |transcripts|))
    && (forall k :: 0 <= k < |agg.shares| ==> agg.shares[k] == ColumnSum(transcripts, ShareColumn, k, |transcripts|))
    && agg.sigma == SigmaSum(transcripts, |transcripts|)
  }

  /** `*a += b` over zipped elements. */
  method AddAssign(acc: array<real>, b: seq<real>)
    requires acc.Length == |b|
    modifies acc
    ensures forall k :: 0 <= k < acc.Length ==> acc[k] == old(acc[k]) + b[k]
  {
    for k := 0 to acc.Length
      invariant forall m :: 0 <= m < k ==> acc[m] == old(acc[m]) + b[m]
      invariant forall m :: k <= m < acc.Length ==> acc[m] == old(acc[m])
    {
      acc[k] := acc[k] + b[k];
    }
  }

  /** Accumulate every later transcript into copies of the first one's vectors. */
  method AggregateNonEmpty(transcripts: seq<Pvss>) returns (agg: Pvss)
    requires |transcripts| > 0 && SameShape(transcripts)
    ensures IsAggregateOf(agg, transcripts)
  {
    var first := transcripts[0];
    var coeffs := new G1[|first.coeffs|](k requires 0 <= k < |first.coeffs| => first.coeffs[k]);
    var sigma := first.sigma;
    var shares := new G2[|first.shares|](k requires 0 <= k < |first.shares| => first.shares[k]);
    var i := 1;
    while i < |transcripts|
      invariant 1 <= i <= |transcripts|
      invariant coeffs.Length == |first.coeffs| && shares.Length == |first.shares|
      invariant forall k :: 0 <= k < coeffs.Length ==> coeffs[k] == ColumnSum(transcripts, CoeffColumn, k, i)
      invariant forall k :: 0 <= k < shares.Length ==> shares[k] == ColumnSum(transcripts, ShareColumn, k, i)
      invariant sigma == SigmaSum(transcripts, i)
    {
      var next := transcripts[i];
      sigma := sigma + next.sigma;
      AddAssign(coeffs, next.coeffs);
      AddAssign(shares, next.shares);
      i := i + 1;
    }
    agg := Pvss(coeffs[..], shares[..], sigma);
  }

  /** `aggregate`: NoTranscriptsToAggregate for an empty list, the element-wise sum otherwise. */
  method Aggregate(transcripts: seq<Pvss>) returns (r: Outcome<Pvss>)
    requires SameShape(transcripts)
    ensures r.Failure? <==> |transcripts| == 0
    ensures r.Failure? ==> r.error == NoTranscriptsToAggregate
    ensures r.Success? ==> IsAggregateOf(r.value, transcripts)
  {
    if |transcripts| == 0 {
      return Failure(NoTranscriptsToAggregate);
    }
    var agg := AggregateNonEmpty(transcripts);
    r := Success(agg);
  }

  /** Every transcript i is dealt from phis[i] to the same validators, all polynomials of width w. */
  predicate DealtFromEach(transcripts: seq<Pvss>, phis: seq<Poly>, w: nat, validators: seq<Validator>, domainPoints: seq<Scalar>)
  {
    |transcripts| == |phis|
    && forall i :: 0 <= i < |phis| ==> |phis[i]| == w && DealtTo(transcripts[i], phis[i], validators, domainPoints)
  }

  /** Every transcript commits to the coefficients of its polynomial, all of width w. */
  predicate CommitsTo(transcripts: seq<Pvss>, phis: seq<Poly>, w: nat)
  {
    |transcripts| == |phis|
    && forall i :: 0 <= i < |phis| ==> |phis[i]| == w && transcripts[i].coeffs == Scale(G1Generator, phis[i])
  }

  /** Every transcript's sigma is g2 times its polynomial's constant term. */
  predicate SigmasCommit(transcripts: seq<Pvss>, phis: seq<Poly>)
  {
    |transcripts| == |phis|
    && forall i :: 0 <= i < |phis| ==> |phis[i]| > 0 && transcripts[i].sigma == G2Generator * phis[i][0]
  }

  /** Share j of every transcript is pk times its polynomial at x. */
  predicate SharesAt(transcripts: seq<Pvss>, phis: seq<Poly>, j: nat, pk: G2, x: Scalar)
  {
    |transcripts| == |phis|
    && forall i :: 0 <= i < |phis| ==> j < |transcripts[i].shares| && transcripts[i].shares[j] == pk * Eval(phis[i], x)
  }

  lemma DealtCommit(transcripts: seq<Pvss>, phis: seq<Poly>, w: nat, validators: seq<Validator>, domainPoints: seq<Scalar>)
    requires DealtFromEach(transcripts, phis, w, validators, domainPoints)
    ensures CommitsTo(transcripts, phis, w) && SigmasCommit(transcripts, phis)
  {
    forall i | 0 <= i < |phis|
      ensures |phis[i]| == w && transcripts[i].coeffs == Scale(G1Generator, phis[i])
      ensures |phis[i]| > 0 && transcripts[i].sigma == G2Generator * phis[i][0]
    {
      assert DealtTo(transcripts[i], phis[i], validators, domainPoints);
    }
  }

  lemma DealtShares(transcripts: seq<Pvss>, phis: seq<Poly>, w: nat, validators: seq<Validator>, domainPoints: seq<Scalar>, j: nat)
    requires DealtFromEach(transcripts, phis, w, validators, domainPoints)
    requires 0 < |phis| && j < |validators|
    ensures validators[j].shareIndex < |domainPoints|
    ensures SharesAt(transcripts, phis, j, validators[j].publicKey, domainPoints[validators[j].shareIndex])
  {
    assert DealtTo(transcripts[0], phis[0], validators, domainPoints);
    var pk := validators[j].publicKey;
    var x := domainPoints[validators[j].shareIndex];
    forall i | 0 <= i < |phis|
      ensures j < |transcripts[i].shares| && transcripts[i].shares[j] == pk * Eval(phis[i], x)
    {
      assert DealtTo(transcripts[i], phis[i], validators, domainPoints);
    }
  }

  lemma {:induction false} CoefficientSums(transcripts: seq<Pvss>, phis: seq<Poly>, w: nat, k: nat, n: nat)
    requires CommitsTo(transcripts, phis, w)
    requires 1 <= n <= |phis| && k < w
    ensures |TpkeRefresh.SumPolys(phis, n)| == w
    ensures ColumnSum(transcripts, CoeffColumn, k, n) == TpkeRefresh.SumPolys(phis, n)[k]
  {
    ScaleAt(G1Generator, phis[n - 1], k);
    assert transcripts[n - 1].coeffs[k] == phis[n - 1][k];
    if n == 1 {
      assert TpkeRefresh.SumPolys(phis, 0) == [];
      assert TpkeRefresh.SumPolys(phis, 1) == phis[0];
      assert ColumnSum(transcripts, CoeffColumn, k, 1) == 0.0 + transcripts[0].coeffs[k];
    } else {
      CoefficientSums(transcripts, phis, w, k, n - 1);
      AddAt(TpkeRefresh.SumPolys(phis, n - 1), phis[n - 1], k);
    }
  }

  lemma {:induction false} ShareSums(transcripts: seq<Pvss>, phis: seq<Poly>, j: nat, pk: G2, x: Scalar, n: nat)
    requires SharesAt(transcripts, phis, j, pk, x)
    requires n <= |phis|
    ensures ColumnSum(transcripts, ShareColumn, j, n) == pk * TpkeRefresh.DealtSum(phis, n, x)
  {
    if n != 0 {
      ShareSums(transcripts, phis, j, pk, x, n - 1);
      ScaledSumStep(ColumnSum(transcripts, ShareColumn, j, n), ColumnSum(transcripts, ShareColumn, j, n - 1),
                    transcripts[n - 1].shares[j], pk, TpkeRefresh.DealtSum(phis, n - 1, x), Eval(phis[n - 1], x),
                    TpkeRefresh.DealtSum(phis, n, x));
    }
  }

  /** phis[0][0] + ... + phis[n-1][0]. */
  function ConstantSum(phis: seq<Poly>, n: nat): Scalar
    requires n <= |phis| && forall i :: 0 <= i < n ==> |phis[i]| > 0
  {
    if n == 0 then 0.0 else ConstantSum(phis, n - 1) + phis[n - 1][0]
  }

  lemma {:induction false} SigmaConstantSum(transcripts: seq<Pvss>, phis: seq<Poly>, n: nat)
    requires SigmasCommit(transcripts, phis) && n <= |phis|
    ensures SigmaSum(transcripts, n) == G2Generator * ConstantSum(phis, n)
  {
    if n != 0 {
      SigmaConstantSum(transcripts, phis, n - 1);
      ScaledSumStep(SigmaSum(transcripts, n), SigmaSum(transcripts, n - 1), transcripts[n - 1].sigma, G2Generator,
                    ConstantSum(phis, n - 1), phis[n - 1][0], ConstantSum(phis, n));
    }
  }

  lemma {:induction false} SumPolysConstant(phis: seq<Poly>, w: nat, n: nat)
    requires 1 <= n <= |phis| && 0 < w && forall i :: 0 <= i < |phis| ==> |phis[i]| == w
    ensures |TpkeRefresh.SumPolys(phis, n)| == w
    ensures TpkeRefresh.SumPolys(phis, n)[0] == ConstantSum(phis, n)
  {
    if n == 1 {
      assert TpkeRefresh.SumPolys(phis, 0) == [];
      assert ConstantSum(phis, 0) == 0.0;
    } else {
      SumPolysConstant(phis, w, n - 1);
      AddAt(TpkeRefresh.SumPolys(phis, n - 1), phis[n - 1], 0);
    }
  }

  lemma SigmaSums(transcripts: seq<Pvss>, phis: seq<Poly>, w: nat, n: nat)
    requires CommitsTo(transcripts, phis, w) && SigmasCommit(transcripts, phis)
    requires 1 <= n <= |phis| && 0 < w
    ensures |TpkeRefresh.SumPolys(phis, n)| == w
    ensures SigmaSum(transcripts, n) == G2Generator * TpkeRefresh.SumPolys(phis, n)[0]
  {
    SigmaConstantSum(transcripts, phis, n);
    SumPolysConstant(phis, w, n);
  }

  /** A running sum of g-multiples is g times the running sum. */
  lemma ScaledSumStep(total: real, before: real, next: real, g: real, a: real, b: real, c: real)
    requires total == before + next && before == g * a && next == g * b && c == a + b
    ensures total == g * c
  {
  }

  /** Transcripts dealt from polynomials of one width to the same validators have the same shape. */
  lemma DealtHaveSameShape(transcripts: seq<Pvss>, phis: seq<Poly>, w: nat, validators: seq<Validator>, domainPoints: seq<Scalar>)
    requires DealtFromEach(transcripts, phis, w, validators, domainPoints)
    ensures SameShape(transcripts)
  {
    forall i | 0 <= i < |transcripts|
      ensures |transcripts[i].coeffs| == w && |transcripts[i].shares| == |validators|
    {
      assert DealtTo(transcripts[i], phis[i], validators, domainPoints);
    }
  }

  /**
   * Aggregation is homomorphic: the sum of transcripts dealt from phi_1, ...,
   * phi_n is the transcript dealt from phi_1 + ... + phi_n.
   */
  lemma AggregateOfDealtIsDealt(
    agg: Pvss, transcripts: seq<Pvss>, phis: seq<Poly>, w: nat, validators: seq<Validator>, domainPoints: seq<Scalar>)
    requires DealtFromEach(transcripts, phis, w, validators, domainPoints)
    requires 0 < |phis| && 0 < w
    requires SameShape(transcripts) && IsAggregateOf(agg, transcripts)
    ensures DealtTo(agg, TpkeRefresh.SumPolys(phis, |phis|), validators, domainPoints)
  {
    DealtColumnSums(transcripts, phis, w, validators, domainPoints);
    SumsAreDealt(agg, transcripts, phis, validators, domainPoints);
  }

  /**
   * The column sums of the transcripts are the commitments, the encrypted
   * shares and sigma of the sum of the polynomials phis.
   */
  predicate SumsDealtFrom(transcripts: seq<Pvss>, phis: seq<Poly>, validators: seq<Validator>, domainPoints: seq<Scalar>)
    requires 0 < |transcripts| == |phis| && SameShape(transcripts)
  {
    var total := TpkeRefresh.SumPolys(phis, |phis|);
    0 < |total| == |transcripts[0].coeffs| && |transcripts[0].shares| == |validators|
    && (forall k :: 0 <= k < |total| ==>
          ColumnSum(transcripts, CoeffColumn, k, |phis|) == Scale(G1Generator, total)[k])
    && (forall j :: 0 <= j < |validators| ==>
          validators[j].shareIndex < |domainPoints|
          && ColumnSum(transcripts, ShareColumn, j, |phis|)
             == validators[j].publicKey * TpkeRefresh.DealtSum(phis, |phis|, domainPoints[validators[j].shareIndex]))
    && SigmaSum(transcripts, |phis|) == G2Generator * total[0]
  }

  lemma DealtColumnSums(transcripts: seq<Pvss>, phis: seq<Poly>, w: nat, validators: seq<Validator>, domainPoints: seq<Scalar>)
    requires DealtFromEach(transcripts, phis, w, validators, domainPoints)
    requires 0 < |phis| && 0 < w
    ensures SameShape(transcripts)
    ensures SumsDealtFrom(transcripts, phis, validators, domainPoints)
  {
    DealtHaveSameShape(transcripts, phis, w, validators, domainPoints);
    DealtCommit(transcripts, phis, w, validators, domainPoints);
    SigmaSums(transcripts, phis, w, |phis|);
    AllCoefficientSums(transcripts, phis, w, validators, domainPoints);
    AllShareSums(transcripts, phis, w, validators, domainPoints);
    assert DealtTo(transcripts[0], phis[0], validators, domainPoints);
  }

  /** An aggregate whose column sums are those of the sum of phis is the transcript dealt from that sum. */
  lemma SumsAreDealt(agg: Pvss, transcripts: seq<Pvss>, phis: seq<Poly>, validators: seq<Validator>, domainPoints: seq<Scalar>)
    requires 0 < |transcripts| == |phis| && SameShape(transcripts) && IsAggregateOf(agg, transcripts)
    requires SumsDealtFrom(transcripts, phis, validators, domainPoints)
    ensures DealtTo(agg, TpkeRefresh.SumPolys(phis, |phis|), validators, domainPoints)
  {
    forall x {
      TpkeRefresh.SumPolysEval(phis, |phis|, x);
    }
  }

  /** Entry k of the summed coefficient commitments commits to coefficient k of the summed polynomial. */
  lemma AllCoefficientSums(transcripts: seq<Pvss>, phis: seq<Poly>, w: nat, validators: seq<Validator>, domainPoints: seq<Scalar>)
    requires DealtFromEach(transcripts, phis, w, validators, domainPoints)
    requires 0 < |phis| && 0 < w
    ensures |TpkeRefresh.SumPolys(phis, |phis|)| == w
    ensures forall k :: 0 <= k < w ==>
      ColumnSum(transcripts, CoeffColumn, k, |phis|) == Scale(G1Generator, TpkeRefresh.SumPolys(phis, |phis|))[k]
  {
    var total := TpkeRefresh.SumPolys(phis, |phis|);
    DealtCommit(transcripts, phis, w, validators, domainPoints);
    CoefficientSums(transcripts, phis, w, 0, |phis|);
    forall k | 0 <= k < w
      ensures ColumnSum(transcripts, CoeffColumn, k, |phis|) == Scale(G1Generator, total)[k]
    {
      CoefficientSums(transcripts, phis, w, k, |phis|);
      ScaleAt(G1Generator, total, k);
    }
  }

  /** Entry j of the summed shares is validator j's key times the sum of the polynomials at its point. */
  lemma AllShareSums(transcripts: seq<Pvss>, phis: seq<Poly>, w: nat, validators: seq<Validator>, domainPoints: seq<Scalar>)
    requires DealtFromEach(transcripts, phis, w, validators, domainPoints)
    requires 0 < |phis|
    ensures forall j :: 0 <= j < |validators| ==>
      validators[j].shareIndex < |domainPoints|
      && ColumnSum(transcripts, ShareColumn, j, |phis|)
         == validators[j].publicKey * TpkeRefresh.DealtSum(phis, |phis|, domainPoints[validators[j].shareIndex])
  {
    forall j | 0 <= j < |validators|
      ensures validators[j].shareIndex < |domainPoints|
      ensures ColumnSum(transcripts, ShareColumn, j, |phis|)
         == validators[j].publicKey * TpkeRefresh.DealtSum(phis, |phis|, domainPoints[validators[j].shareIndex])
    {
      DealtShares(transcripts, phis, w, validators, domainPoints, j);
      ShareSums(transcripts, phis, j, validators[j].publicKey, domainPoints[validators[j].shareIndex], |phis|);
    }
  }

  // ---------------------------------------------------------------------------
  // AggregatedTranscript

  /** `from_aggregate`: the DKG public key is the aggregate's constant-term commitment. */
  function FromAggregate(aggregate: Pvss): (r: AggregatedTranscript)
    requires |aggregate.coeffs| > 0
  {
    AggregatedTranscript(aggregate, aggregate.coeffs[0])
  }

  /** The public key of an aggregate of dealt transcripts is g times the sum of the dealt secrets. */
  lemma AggregatedPublicKeyIsSumOfSecrets(
    agg: Pvss, transcripts: seq<Pvss>, phis: seq<Poly>, w: nat, validators: seq<Validator>, domainPoints: seq<Scalar>)
    requires DealtFromEach(transcripts, phis, w, validators, domainPoints)
    requires 0 < |phis| && 0 < w
    requires SameShape(transcripts) && IsAggregateOf(agg, transcripts)
    ensures |agg.coeffs| > 0
    ensures FromAggregate(agg).aggregate == agg
    ensures FromAggregate(agg).publicKey == G1Generator * TpkeRefresh.DealtSum(phis, |phis|, 0.0)
  {
    var total := TpkeRefresh.SumPolys(phis, |phis|);
    AggregateOfDealtIsDealt(agg, transcripts, phis, w, validators, domainPoints);
    ScaleAt(G1Generator, total, 0);
    TpkeRefresh.SumPolysEval(phis, |phis|, 0.0);
    assert Eval(total, 0.0) == total[0];
  }

  /** `from_transcripts`: aggregate, then take the public key. */
  method FromTranscripts(transcripts: seq<Pvss>) returns (r: Outcome<AggregatedTranscript>)
    requires SameShape(transcripts)
    requires |transcripts| > 0 ==> |transcripts[0].coeffs| > 0
    ensures r.Failure? <==> |transcripts| == 0
    ensures r.Failure? ==> r.error == NoTranscriptsToAggregate
    ensures r.Success? ==>
      |r.value.aggregate.coeffs| > 0 && IsAggregateOf(r.value.aggregate, transcripts)
      && r.value.publicKey == ColumnSum(transcripts, CoeffColumn, 0, |transcripts|)
  {
    var aggregate := Aggregate(transcripts);
    if aggregate.Failure? {
      return Failure(aggregate.error);
    }
    r := Success(FromAggregate(aggregate.value));
  }

  // ---------------------------------------------------------------------------
  // do_verify_aggregation

  /**
   * The inputs on which `do_verify_aggregation` does not panic: once the full
   * check has passed, it reads coeffs[0] of every transcript and of the aggregate.
   */
  predicate AggregationDefined(
    aggCoeffs: seq<G1>, aggShares: seq<G2>, validators: seq<Validator>, domain: seq<Scalar>, transcripts: seq<Pvss>)
  {
    VerifyFull(aggCoeffs, aggShares, validators, domain) == Success(true) ==>
      |aggCoeffs| > 0 && forall i :: 0 <= i < |transcripts| ==> |transcripts[i].coeffs| > 0
  }

  /**
   * Full check of the aggregate, then Σ coeffs[0] of the transcripts against the
   * aggregate's coeffs[0]. Either failure is reported as InvalidTranscriptAggregate,
   * errors of the full check propagate, and Ok(false) is never returned.
   */
  method DoVerifyAggregation(
    aggCoeffs: seq<G1>, aggShares: seq<G2>, validators: seq<Validator>, domain: seq<Scalar>, transcripts: seq<Pvss>)
    returns (r: Outcome<bool>)
    requires AggregationDefined(aggCoeffs, aggShares, validators, domain, transcripts)
    ensures r != Success(false)
    ensures r == Success(true) <==>
      VerifyFull(aggCoeffs, aggShares, validators, domain) == Success(true)
      && ColumnSum(transcripts, CoeffColumn, 0, |transcripts|) == aggCoeffs[0]
    ensures VerifyFull(aggCoeffs, aggShares, validators, domain).Failure? ==>
      r == VerifyFull(aggCoeffs, aggShares, validators, domain)
    ensures VerifyFull(aggCoeffs, aggShares, validators, domain) == Success(false) ==>
      r == Failure(InvalidTranscriptAggregate)
  {
    var isValid := DoVerifyFull(aggCoeffs, aggShares, validators, domain);
    if isValid.Failure? {
      return Failure(isValid.error);
    }
    if !isValid.value {
      return Failure(InvalidTranscriptAggregate);
    }
    var y := ColumnSum(transcripts, CoeffColumn, 0, |transcripts|);
    if y == aggCoeffs[0] {
      r := Success(true);
    } else {
      r := Failure(InvalidTranscriptAggregate);
    }
  }

  /**
   * Completeness of aggregation: the aggregate of transcripts dealt to
   * validators at their own positions passes the full check, and its constant
   * term is the sum of the transcripts' constant terms.
   */
  lemma AggregateOfDealtVerifies(
    agg: Pvss, transcripts: seq<Pvss>, phis: seq<Poly>, w: nat,
    validators: seq<Validator>, domainPoints: seq<Scalar>, domain: seq<Scalar>)
    requires DealtFromEach(transcripts, phis, w, validators, domainPoints)
    requires 0 < |phis| && 0 < w <= |domain|
    requires SameShape(transcripts) && IsAggregateOf(agg, transcripts)
    requires AtOwnPositions(validators, domainPoints, domain)
    ensures |agg.coeffs| <= |domain|
    ensures AggregationDefined(agg.coeffs, agg.shares, validators, domain, transcripts)
    ensures VerifyFull(agg.coeffs, agg.shares, validators, domain) == Success(true)
    ensures ColumnSum(transcripts, CoeffColumn, 0, |transcripts|) == agg.coeffs[0]
  {
    AggregateOfDealtIsDealt(agg, transcripts, phis, w, validators, domainPoints);
    DealtCommit(transcripts, phis, w, validators, domainPoints);
    CoefficientSums(transcripts, phis, w, 0, |phis|);
    DealtPassesFull(agg, TpkeRefresh.SumPolys(phis, |phis|), validators, domainPoints, domain);
  }

  // ---------------------------------------------------------------------------
  // refresh, handover

  /**
   * `apply_share_updates` of a blinded key share (its body is not part of this
   * model): the blinded share, the update transcripts and the share index give
   * the refreshed blinded share.
   */
  type ShareUpdater = (BlindedKeyShare, map<nat, FerveoRefresh.UpdateTranscript>, nat) -> G2

  /**
   * `refresh`: every update transcript must pass `verify_refresh` (a failure
   * panics), then every share is updated under its validator's key; the
   * coefficient commitments and sigma are kept.
   */
  method Refresh(
    t: Pvss, updateTranscripts: map<nat, FerveoRefresh.UpdateTranscript>, validatorKeys: map<nat, G2>,
    fftDomain: seq<Scalar>, applyShareUpdates: ShareUpdater)
    returns (r: Outcome<Pvss>)
    requires |fftDomain| == DomainSize(|t.shares|)
    requires forall k :: k in updateTranscripts ==>
      FerveoRefresh.VerifyRecoveryDefined(updateTranscripts[k], validatorKeys, fftDomain, 0.0)
      && FerveoRefresh.IndicesInDomain(updateTranscripts[k], fftDomain)
    requires forall i :: 0 <= i < |t.shares| ==> i in validatorKeys
    ensures r.Success?
    ensures r.value.coeffs == t.coeffs && r.value.sigma == t.sigma && |r.value.shares| == |t.shares|
    ensures forall i :: 0 <= i < |t.shares| ==>
      r.value.shares[i] == applyShareUpdates(BlindedKeyShare(validatorKeys[i], t.shares[i]), updateTranscripts, i)
  {
    var remaining := updateTranscripts.Keys;
    while remaining != {}
      decreases remaining
    {
      var k :| k in remaining;
      var verified := FerveoRefresh.VerifyRefresh(updateTranscripts[k], validatorKeys, fftDomain);
      assert verified.Success?;
      remaining := remaining - {k};
    }
    var updatedBlindedShares := seq(|t.shares|, index requires 0 <= index < |t.shares| =>
      applyShareUpdates(BlindedKeyShare(validatorKeys[index], t.shares[index]), updateTranscripts, index));
    r := Success(Pvss(t.coeffs, updatedBlindedShares, t.sigma));
  }

  /** after is before with share i replaced by y: commitments, sigma and every other share are kept. */
  predicate ReplacesShare(before: Pvss, after: Pvss, i: nat, y: G2)
  {
    after.coeffs == before.coeffs && after.sigma == before.sigma
    && |after.shares| == |before.shares| && i < |after.shares|
    && after.shares[i] == y
    && forall j :: 0 <= j < |after.shares| && j != i ==> after.shares[j] == before.shares[j]
  }

  /**
   * `handover`: the commitment at the incoming validator's share index, from
   * the FFT of the coefficient commitments, is finalized into the new blinded
   * share, which overwrites that slot of a copy of the shares. The domain has
   * the radix-2 size for the number of shares, so the index is inside it.
   * `HandoverTranscript::finalize` is not part of this model and is a parameter.
   */
  method Handover(t: Pvss, shareIndex: nat, fftDomain: seq<Scalar>, finalize: G1 -> G2) returns (r: Outcome<Pvss>)
    requires |fftDomain| == DomainSize(|t.shares|)
    requires shareIndex < |t.shares|
    ensures r.Success?
    ensures ReplacesShare(t, r.value, shareIndex, finalize(Fft(t.coeffs, fftDomain)[shareIndex]))
    ensures |t.coeffs| <= |fftDomain| ==>
      ReplacesShare(t, r.value, shareIndex, finalize(Eval(t.coeffs, fftDomain[shareIndex])))
  {
    var shareCommitments := Fft(t.coeffs, fftDomain);
    var shareCommitment := shareCommitments[shareIndex];
    var newBlindShare := finalize(shareCommitment);
    var newShares := new G2[|t.shares|](j requires 0 <= j < |t.shares| => t.shares[j]);
    newShares[shareIndex] := newBlindShare;
    r := Success(Pvss(t.coeffs, newShares[..], t.sigma));
  }

  /**
   * After an honest handover (the new share is the incoming key times the
   * share's committed value) the incoming validator's share verifies, and
   * every other validator's check gives the same result as before.
   */
  lemma HandedOverShareVerifies(before: Pvss, after: Pvss, i: nat, newKey: G2, domain: seq<Scalar>, other: Validator)
    requires i < |domain|
    requires ReplacesShare(before, after, i, Fft(before.coeffs, domain)[i] * newKey)
    requires other.shareIndex != i
    ensures VerifyValidatorShare(Fft(after.coeffs, domain), after.shares, i, newKey) == Success(true)
    ensures VerifyValidatorShare(Fft(after.coeffs, domain), after.shares, other.shareIndex, other.publicKey)
         == VerifyValidatorShare(Fft(before.coeffs, domain), before.shares, other.shareIndex, other.publicKey)
  {
  }

  // ---------------------------------------------------------------------------
  // get_blinded_key_share

  /** The share at the given index, paired with the validator's key; an index past the shares panics. */
  function GetBlindedKeyShare(t: Pvss, validatorPublicKey: G2, shareIndex: nat): BlindedKeyShare
    requires shareIndex < |t.shares|
  {
    BlindedKeyShare(validatorPublicKey, t.shares[shareIndex])
  }

  /**
   * A validator with decryption key dk (public key h·dk) holding a dealt
   * share unblinds it with dk⁻¹ to h·phi(x), its private key share.
   */
  lemma BlindedShareUnblinds(t: Pvss, phi: Poly, validators: seq<Validator>, domainPoints: seq<Scalar>, j: nat, dk: Scalar)
    requires DealtTo(t, phi, validators, domainPoints)
    requires j < |validators| && validators[j].shareIndex == j
    requires dk != 0.0 && validators[j].publicKey == G2Generator * dk
    ensures j < |t.shares| && j < |domainPoints|
    ensures GetBlindedKeyShare(t, validators[j].publicKey, j).blindedKeyShare * Inverse(dk)
      == G2Generator * Eval(phi, domainPoints[j])
  {
    var e := Eval(phi, domainPoints[j]);
    assert t.shares[j] == dk * e;
    assert dk * e * Inverse(dk) == e * (Inverse(dk) * dk);
  }
}
