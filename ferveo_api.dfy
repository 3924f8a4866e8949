/**
 * The public API of the ferveo crate (ferveo/src/api.rs): thin wrappers over
 * the DKG, the transcript aggregate and the refresh protocol, with their own
 * argument checks, plus the variant names and the public-key byte format.
 *
 * The point codec of ark_serialize is a pair of function parameters; the
 * evaluation domain of `AggregatedTranscript::verify` and the randomness of
 * the refresh wrappers are parameters too.
 */
module FerveoApi {
  import opened Field
  import opened Polynomial
  import opened EvaluationDomain
  import opened Bytes
  import opened FerveoValidator
  import opened FerveoTypes
  import opened FerveoPvss
  import opened FerveoDkg
  import TdecDecryption
  import TdecCombine
  import Lagrange
  import FerveoRefresh
  import TpkeRefresh

  // ---------------------------------------------------------------------------
  // FerveoVariant

  datatype FerveoVariant = Simple | Precomputed

  /** `as_str`: the variant's name, qualified by the type. */
  function AsStr(v: FerveoVariant): string
  {
    match v
    case Simple => "FerveoVariant::Simple"
    case Precomputed => "FerveoVariant::Precomputed"
  }

  /**
   * `from_string`: exactly the names `as_str` produces are accepted, each as
   * its own variant; any other string is an InvalidVariant carrying it.
   */
  function FromString(s: string): (r: Outcome<FerveoVariant>)
    ensures r.Success? <==> exists v :: AsStr(v) == s
    ensures r.Success? ==> AsStr(r.value) == s
    ensures r.Failure? ==> r.error == InvalidVariant(s)
  {
    if s == "FerveoVariant::Simple" then
      assert AsStr(Simple) == s;
      Success(Simple)
    else if s == "FerveoVariant::Precomputed" then
      assert AsStr(Precomputed) == s;
      Success(Precomputed)
    else
      assert AsStr(Simple) != s && AsStr(Precomputed) != s;
      Failure(InvalidVariant(s))
  }

  /** Parsing a variant's name gives the variant back. */
  lemma VariantRoundTrip(v: FerveoVariant)
    ensures FromString(AsStr(v)) == Success(v)
  {
  }

  // ---------------------------------------------------------------------------
  // DkgPublicKey bytes

  /** `serialized_size`: a compressed G1 point takes 48 bytes. */
  const PublicKeySize: nat := 48

  /** The compressed encoding of a G1 point, and its decoding, which may fail. */
  type PointEncoder = G1 -> seq<byte>
  type PointDecoder = seq<byte> -> Option<G1>

  /** `to_bytes`: the compressed point, copied into a 48-byte array (a different length panics). */
  function PublicKeyToBytes(pk: G1, encodePoint: PointEncoder): (bytes: seq<byte>)
    requires |encodePoint(pk)| == PublicKeySize
    ensures |bytes| == PublicKeySize
  {
    encodePoint(pk)
  }

  /**
   * `from_bytes`: anything but exactly 48 bytes is InvalidByteLength(48, len);
   * 48 bytes that do not decode to a point are an ark_serialize error.
   */
  function PublicKeyFromBytes(bytes: seq<byte>, decodePoint: PointDecoder): (r: Outcome<G1>)
    ensures |bytes| != PublicKeySize ==> r == Failure(InvalidByteLength(PublicKeySize, |bytes|))
    ensures r.Success? ==> |bytes| == PublicKeySize && decodePoint(bytes) == Some(r.value)
    ensures |bytes| == PublicKeySize && decodePoint(bytes).None? ==> r == Failure(ArkSerializeError)
  {
    if |bytes| != PublicKeySize then Failure(InvalidByteLength(PublicKeySize, |bytes|))
    else
      match decodePoint(bytes)
      case None => Failure(ArkSerializeError)
      case Some(pk) => Success(pk)
  }

  /** A key written out and read back is the same key, when the point codec round-trips on it. */
  lemma PublicKeyRoundTrip(pk: G1, encodePoint: PointEncoder, decodePoint: PointDecoder)
    requires |encodePoint(pk)| == PublicKeySize
    requires decodePoint(encodePoint(pk)) == Some(pk)
    ensures PublicKeyFromBytes(PublicKeyToBytes(pk, encodePoint), decodePoint) == Success(pk)
  {
  }

  // ---------------------------------------------------------------------------
  // Dkg::new

  /**
   * `Dkg::new`: validate the parameters first, then build the DKG context;
   * `domain` holds the elements of the domain built for the validators.
   */
  function NewApiDkg(
    tau: nat, sharesNum: nat, securityThreshold: nat, validators: seq<Validator>, me: Validator, domain: seq<Scalar>)
    : (r: Outcome<Dkg>)
    requires |domain| == DomainSize(|validators|)
    ensures !(1 <= securityThreshold <= sharesNum) ==> r == Failure(InvalidDkgParameters(sharesNum, securityThreshold))
    ensures r.Success? <==>
      1 <= securityThreshold <= sharesNum && DistinctShareIndices(validators) && MeListed(validators, me)
    ensures r.Success? ==>
      WellFormed(r.value) && r.value.dkgParams == DkgParams(tau, securityThreshold, sharesNum)
      && r.value.me == me && |r.value.validators| == |validators|
  {
    match NewDkgParams(tau, securityThreshold, sharesNum)
    case Failure(e) => Failure(e)
    case Success(dkgParams) =>
      NewDkgSpec(validators, dkgParams, me, domain);
      NewDkg(validators, dkgParams, me, domain)
  }

  // ---------------------------------------------------------------------------
  // AggregatedTranscript::new and verify

  /** The senders of the messages, in message order. */
  function SendersOf(messages: seq<ValidatorMessage>): (vs: seq<Validator>)
    ensures |vs| == |messages| && forall i :: 0 <= i < |messages| ==> vs[i] == messages[i].0
  {
    seq(|messages|, i requires 0 <= i < |messages| => messages[i].0)
  }

  /** `AggregatedTranscript::new`: aggregate the messages' transcripts, in message order. */
  method NewAggregatedTranscript(messages: seq<ValidatorMessage>) returns (r: Outcome<AggregatedTranscript>)
    requires SameShape(TranscriptsOf(messages))
    requires |messages| > 0 ==> |messages[0].1.coeffs| > 0
    ensures r.Failure? <==> |messages| == 0
    ensures r.Failure? ==> r.error == NoTranscriptsToAggregate
    ensures r.Success? ==>
      IsAggregateOf(r.value.aggregate, TranscriptsOf(messages))
      && r.value.publicKey == ColumnSum(TranscriptsOf(messages), CoeffColumn, 0, |messages|)
  {
    r := FromTranscripts(TranscriptsOf(messages));
  }

  /**
   * The inputs on which `verify` does not panic: past the parameter guard the
   * aggregate has a constant term, and past the optimistic check the
   * aggregation check is defined.
   */
  predicate VerifyDefined(agg: AggregatedTranscript, validatorsNum: nat, messages: seq<ValidatorMessage>, domain: seq<Scalar>)
  {
    validatorsNum >= |messages| ==>
      |agg.aggregate.coeffs| > 0
      && (VerifyOptimistic(agg.aggregate) ==>
            AggregationDefined(agg.aggregate.coeffs, agg.aggregate.shares, SendersOf(messages), domain, TranscriptsOf(messages)))
  }

  /**
   * `AggregatedTranscript::verify`: more messages than validators is rejected
   * before any other check; then the aggregate must pass the optimistic check,
   * then the full check against the senders and the sum of the transcripts'
   * constant terms. `domain` is the radix-2 evaluation domain for
   * `validators_num` points.
   */
  method Verify(agg: AggregatedTranscript, validatorsNum: nat, messages: seq<ValidatorMessage>, domain: seq<Scalar>)
    returns (r: Outcome<bool>)
    requires |domain| == DomainSize(validatorsNum)
    requires VerifyDefined(agg, validatorsNum, messages, domain)
    ensures validatorsNum < |messages| ==>
      r == Failure(InvalidAggregateVerificationParameters(validatorsNum, |messages|))
    ensures validatorsNum >= |messages| && !VerifyOptimistic(agg.aggregate) ==> r == Failure(InvalidTranscriptAggregate)
    ensures r != Success(false)
    ensures r == Success(true) <==>
      validatorsNum >= |messages| && VerifyOptimistic(agg.aggregate)
      && VerifyFull(agg.aggregate.coeffs, agg.aggregate.shares, SendersOf(messages), domain) == Success(true)
      && ColumnSum(TranscriptsOf(messages), CoeffColumn, 0, |messages|) == agg.aggregate.coeffs[0]
  {
    if validatorsNum < |messages| {
      return Failure(InvalidAggregateVerificationParameters(validatorsNum, |messages|));
    }
    if !VerifyOptimistic(agg.aggregate) {
      return Failure(InvalidTranscriptAggregate);
    }
    r := DoVerifyAggregation(agg.aggregate.coeffs, agg.aggregate.shares, SendersOf(messages), domain, TranscriptsOf(messages));
  }

  /**
   * The aggregate of dealt transcripts is itself dealt, so it passes the
   * optimistic check as well as the full check and the sum check.
   */
  lemma AggregateOfDealtPassesAll(
    agg: Pvss, transcripts: seq<Pvss>, phis: seq<Poly>, w: nat,
    validators: seq<Validator>, domainPoints: seq<Scalar>, domain: seq<Scalar>)
    requires DealtFromEach(transcripts, phis, w, validators, domainPoints)
    requires 0 < |phis| && 0 < w <= |domain|
    requires SameShape(transcripts) && IsAggregateOf(agg, transcripts)
    requires AtOwnPositions(validators, domainPoints, domain)
    ensures |agg.coeffs| > 0 && VerifyOptimistic(agg) && |agg.coeffs| <= |domain|
    ensures AggregationDefined(agg.coeffs, agg.shares, validators, domain, transcripts)
    ensures VerifyFull(agg.coeffs, agg.shares, validators, domain) == Success(true)
    ensures ColumnSum(transcripts, CoeffColumn, 0, |transcripts|) == agg.coeffs[0]
  {
    AggregateOfDealtVerifies(agg, transcripts, phis, w, validators, domainPoints, domain);
    AggregateOfDealtIsDealt(agg, transcripts, phis, w, validators, domainPoints);
    DealtPassesOptimistic(agg, TpkeRefresh.SumPolys(phis, |phis|), validators, domainPoints);
  }

  /**
   * Completeness: the aggregate of transcripts that each sender dealt to the
   * senders at their own positions passes every check of `verify`.
   */
  lemma HonestAggregateVerifies(
    agg: AggregatedTranscript, validatorsNum: nat, messages: seq<ValidatorMessage>,
    senders: seq<Validator>, transcripts: seq<Pvss>,
    phis: seq<Poly>, w: nat, domainPoints: seq<Scalar>, domain: seq<Scalar>)
    requires senders == SendersOf(messages) && transcripts == TranscriptsOf(messages)
    requires DealtFromEach(transcripts, phis, w, senders, domainPoints)
    requires 0 < |phis| && 0 < w <= |domain| && |messages| <= validatorsNum
    requires SameShape(transcripts) && IsAggregateOf(agg.aggregate, transcripts)
    requires AtOwnPositions(senders, domainPoints, domain)
    ensures VerifyDefined(agg, validatorsNum, messages, domain)
    ensures VerifyOptimistic(agg.aggregate)
    ensures VerifyFull(agg.aggregate.coeffs, agg.aggregate.shares, senders, domain) == Success(true)
    ensures ColumnSum(transcripts, CoeffColumn, 0, |messages|) == agg.aggregate.coeffs[0]
  {
    AggregateOfDealtPassesAll(agg.aggregate, transcripts, phis, w, senders, domainPoints, domain);
  }

  // ---------------------------------------------------------------------------
  // create_decryption_share_precomputed: the selected domain points

  /**
   * The domain points of the selected validators, keyed by share index; a
   * validator whose index has no domain point is skipped.
   */
  function SelectedDomainPoints(dkg: Dkg, selected: seq<Validator>): (m: map<nat, Scalar>)
    ensures forall k :: k in m <==> HasIndex(selected, k) && GetDomainPoint(dkg, k).Success?
    ensures forall k :: k in m ==> k < |dkg.domain| && m[k] == dkg.domain[k]
  {
    if |selected| == 0 then map[]
    else
      var prefix := selected[..|selected| - 1];
      var last := selected[|selected| - 1];
      var m := SelectedDomainPoints(dkg, prefix);
      assert forall k :: HasIndex(selected, k) <==> HasIndex(prefix, k) || last.shareIndex == k by {
        forall k
          ensures HasIndex(selected, k) <==> HasIndex(prefix, k) || last.shareIndex == k
        {
          if HasIndex(prefix, k) {
            var j :| 0 <= j < |prefix| && prefix[j].shareIndex == k;
            assert selected[j] == prefix[j];
          }
          if HasIndex(selected, k) {
            var j :| 0 <= j < |selected| && selected[j].shareIndex == k;
            if j < |prefix| {
              assert prefix[j] == selected[j];
            }
          }
        }
      }
      match GetDomainPoint(dkg, last.shareIndex)
      case Success(point) => m[last.shareIndex := point]
      case Failure(_) => m
  }

  /** In a well-formed context, exactly the selected indices below the number of validators are kept. */
  lemma SelectedDomainPointsOfWellFormed(dkg: Dkg, selected: seq<Validator>, k: nat)
    requires WellFormed(dkg)
    ensures k in SelectedDomainPoints(dkg, selected) <==> HasIndex(selected, k) && k < |dkg.validators|
  {
  }

  // ---------------------------------------------------------------------------
  // combine_shares_simple

  /** A simple decryption share together with the domain point of its creator. */
  datatype DecryptionShareSimple = DecryptionShareSimple(share: TdecDecryption.DecryptionShareSimple, domainPoint: DomainPoint)

  type DomainPoint = Scalar

  function PointsOf(shares: seq<DecryptionShareSimple>): (xs: seq<Scalar>)
    ensures |xs| == |shares| && forall i :: 0 <= i < |shares| ==> xs[i] == shares[i].domainPoint
  {
    seq(|shares|, i requires 0 <= i < |shares| => shares[i].domainPoint)
  }

  function InnerShares(shares: seq<DecryptionShareSimple>): (ds: seq<TdecDecryption.DecryptionShareSimple>)
    ensures |ds| == |shares| && forall i :: 0 <= i < |shares| ==> ds[i] == shares[i].share
  {
    seq(|shares|, i requires 0 <= i < |shares| => shares[i].share)
  }

  /**
   * `combine_shares_simple`: the Lagrange coefficients at 0 come from the
   * shares' own domain points, in share order.
   */
  method CombineSharesSimple(shares: seq<DecryptionShareSimple>) returns (sharedSecret: GT)
    ensures sharedSecret == TdecCombine.ShareCombineSimple(InnerShares(shares), Lagrange.Coeffs(PointsOf(shares), 0.0))
  {
    var lagrangeCoefficients := TdecCombine.PrepareCombineSimple(PointsOf(shares));
    sharedSecret := TdecCombine.ShareCombineSimple(InnerShares(shares), lagrangeCoefficients);
  }

  /** A share created honestly for the secret polynomial f: e(U, f(x)) at its own domain point x. */
  predicate HonestShares(shares: seq<DecryptionShareSimple>, u: G1, f: Poly)
  {
    forall j :: 0 <= j < |shares| ==> shares[j].share.decryptionShare == Pairing(u, Eval(f, shares[j].domainPoint))
  }

  /**
   * With at least as many honest shares at distinct points as f has
   * coefficients, combining yields e(U, f(0)), the shared secret.
   */
  lemma CombineSharesSimpleReconstructs(shares: seq<DecryptionShareSimple>, u: G1, f: Poly)
    requires Distinct(PointsOf(shares)) && |f| <= |shares|
    requires HonestShares(shares, u, f)
    ensures TdecCombine.ShareCombineSimple(InnerShares(shares), Lagrange.Coeffs(PointsOf(shares), 0.0)) == Pairing(u, Eval(f, 0.0))
  {
    TdecCombine.ShareCombineSimpleReconstructs(InnerShares(shares), PointsOf(shares), u, f);
  }

  /**
   * With fewer shares than the threshold the secret is missed: one honest
   * share of f(x) = 1 + x at the point 1 combines to e(U, f(1)), not e(U, f(0)).
   */
  lemma TooFewSharesMissTheSecret()
    ensures var f := [1.0, 1.0];
      var shares := [DecryptionShareSimple(TdecDecryption.DecryptionShareSimple(Pairing(1.0, Eval(f, 1.0)), TdecDecryption.ValidatorShareChecksum(0.0)), 1.0)];
      HonestShares(shares, 1.0, f)
      && TdecCombine.ShareCombineSimple(InnerShares(shares), Lagrange.Coeffs(PointsOf(shares), 0.0)) != Pairing(1.0, Eval(f, 0.0))
  {
    var f := [1.0, 1.0];
    var shares := [DecryptionShareSimple(TdecDecryption.DecryptionShareSimple(Pairing(1.0, Eval(f, 1.0)), TdecDecryption.ValidatorShareChecksum(0.0)), 1.0)];
    assert Eval(f, 1.0) == 2.0 && Eval(f, 0.0) == 1.0;
    assert PointsOf(shares) == [1.0];
    assert Lagrange.PartialProduct([1.0], 0.0, 1.0, 1) == 1.0 by {
      assert Lagrange.PartialProduct([1.0], 0.0, 1.0, 0) == 1.0;
      assert Lagrange.Factor(1.0, 0.0, 1.0) == 1.0;
    }
    assert Lagrange.Coeffs([1.0], 0.0) == [1.0];
    assert TdecCombine.CombinePrefix(InnerShares(shares), [1.0], 0) == GTOne;
    assert TdecCombine.ShareCombineSimple(InnerShares(shares), [1.0]) == 2.0;
  }

  // ---------------------------------------------------------------------------
  // ShareRecoveryUpdate::create_recovery_updates, ShareRefreshUpdate::create_share_updates

  /**
   * `create_recovery_updates`: one update per validator of the DKG, each the
   * evaluation at the validator's domain point of a fresh polynomial of
   * degree threshold-1 that vanishes at x_r, and each passing the update
   * check against the validator's key. `draws` stands for the randomness.
   */
  method CreateRecoveryUpdatesForDkg(dkg: Dkg, xR: DomainPoint, draws: seq<Scalar>)
    returns (r: Outcome<map<nat, FerveoRefresh.ShareUpdate>>)
    requires WellFormed(dkg) && PointForEveryValidator(dkg)
    requires dkg.dkgParams.securityThreshold >= 1 && |draws| == dkg.dkgParams.securityThreshold
    ensures r.Success? && r.value.Keys == dkg.validators.Keys
    ensures Eval(TpkeRefresh.ZeroedAt(xR, draws[1..]), xR) == 0.0
    ensures forall k :: k in r.value ==>
      k < |dkg.domain|
      && r.value[k] == FerveoRefresh.ShareUpdateAt(TpkeRefresh.ZeroedAt(xR, draws[1..]), (dkg.domain[k], dkg.validators[k].publicKey))
      && FerveoRefresh.VerifyShareUpdate(r.value[k], dkg.validators[k].publicKey) == Success(true)
  {
    var t := FerveoRefresh.CreateRecoveryUpdates(DomainAndKeyMap(dkg), xR, dkg.dkgParams.securityThreshold, draws);
    DomainAndKeyMapSpec(dkg);
    forall k | k in dkg.validators
      ensures FerveoRefresh.VerifyShareUpdate(t.updates[k], dkg.validators[k].publicKey) == Success(true)
    {
      FerveoRefresh.DealtUpdateVerifies(TpkeRefresh.ZeroedAt(xR, draws[1..]), dkg.domain[k], dkg.validators[k].publicKey);
    }
    r := Success(t.updates);
  }

  /** `create_share_updates`: the same with the root at 0, so the shared secret is unchanged. */
  method CreateShareUpdatesForDkg(dkg: Dkg, draws: seq<Scalar>)
    returns (r: Outcome<map<nat, FerveoRefresh.ShareUpdate>>)
    requires WellFormed(dkg) && PointForEveryValidator(dkg)
    requires dkg.dkgParams.securityThreshold >= 1 && |draws| == dkg.dkgParams.securityThreshold
    ensures r.Success? && r.value.Keys == dkg.validators.Keys
    ensures Eval(TpkeRefresh.ZeroedAt(0.0, draws[1..]), 0.0) == 0.0
    ensures forall k :: k in r.value ==>
      k < |dkg.domain|
      && r.value[k] == FerveoRefresh.ShareUpdateAt(TpkeRefresh.ZeroedAt(0.0, draws[1..]), (dkg.domain[k], dkg.validators[k].publicKey))
      && FerveoRefresh.VerifyShareUpdate(r.value[k], dkg.validators[k].publicKey) == Success(true)
  {
    var t := FerveoRefresh.CreateRefreshUpdates(DomainAndKeyMap(dkg), dkg.dkgParams.securityThreshold, draws);
    DomainAndKeyMapSpec(dkg);
    forall k | k in dkg.validators
      ensures FerveoRefresh.VerifyShareUpdate(t.updates[k], dkg.validators[k].publicKey) == Success(true)
    {
      FerveoRefresh.DealtUpdateVerifies(TpkeRefresh.ZeroedAt(0.0, draws[1..]), dkg.domain[k], dkg.validators[k].publicKey);
    }
    r := Success(t.updates);
  }
}
