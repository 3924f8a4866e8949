/**
 * The DKG context of ferveo/src/dkg.rs: parameters, the validator map keyed by
 * share index, the evaluation domain, the admission of received transcripts
 * and their aggregation.
 *
 * The evaluation domain is computed by foreign FFT code; the model takes its
 * elements as a parameter whose length is the radix-2 domain size.
 */
module FerveoDkg {
  import opened Field
  import opened Polynomial
  import opened EvaluationDomain
  import opened NatSets
  import opened FerveoValidator
  import opened FerveoTypes
  import opened FerveoPvss
  import FerveoRefresh
  import TpkeRefresh

  // ---------------------------------------------------------------------------
  // DkgParams

  datatype DkgParams = DkgParams(tau: nat, securityThreshold: nat, sharesNum: nat)

  /** `DkgParams::new`: 1 <= security_threshold <= shares_num, otherwise InvalidDkgParameters. */
  function NewDkgParams(tau: nat, securityThreshold: nat, sharesNum: nat): (r: Outcome<DkgParams>)
    ensures r.Success? <==> 1 <= securityThreshold <= sharesNum
    ensures r.Failure? ==> r.error == InvalidDkgParameters(sharesNum, securityThreshold)
    ensures r.Success? ==> r.value.tau == tau && r.value.securityThreshold == securityThreshold && r.value.sharesNum == sharesNum
  {
    if sharesNum < securityThreshold || sharesNum == 0 || securityThreshold == 0 then
      Failure(InvalidDkgParameters(sharesNum, securityThreshold))
    else
      Success(DkgParams(tau, securityThreshold, sharesNum))
  }

  // ---------------------------------------------------------------------------
  // The validators, keyed by share index

  /** `collect` into a map keyed by share index: a later validator replaces an earlier one with the same index. */
  function ByShareIndex(validators: seq<Validator>): map<nat, Validator>
  {
    if |validators| == 0 then map[]
    else
      var last := validators[|validators| - 1];
      ByShareIndex(validators[..|validators| - 1])[last.shareIndex := last]
  }

  /** The list holds a validator with share index k. */
  predicate HasIndex(validators: seq<Validator>, k: nat)
  {
    exists j :: 0 <= j < |validators| && validators[j].shareIndex == k
  }

  /**
   * The keys of the map are the share indices of the list, and every entry is
   * a validator of the list stored under its own index.
   */
  lemma {:induction false} ByShareIndexKeys(validators: seq<Validator>)
    ensures forall k :: k in ByShareIndex(validators) <==> HasIndex(validators, k)
    ensures forall k :: k in ByShareIndex(validators) ==>
      ByShareIndex(validators)[k].shareIndex == k && ByShareIndex(validators)[k] in validators
  {
    if |validators| != 0 {
      var n := |validators| - 1;
      var prefix := validators[..n];
      var last := validators[n];
      ByShareIndexKeys(prefix);
      forall k | HasIndex(validators, k)
        ensures k in ByShareIndex(validators)
      {
        var j :| 0 <= j < |validators| && validators[j].shareIndex == k;
        if j < n {
          assert prefix[j].shareIndex == k;
          assert HasIndex(prefix, k);
        }
      }
      forall k | k in ByShareIndex(prefix)
        ensures HasIndex(validators, k)
      {
        var j :| 0 <= j < |prefix| && prefix[j].shareIndex == k;
        assert validators[j].shareIndex == k;
      }
      assert validators[n].shareIndex == last.shareIndex;
      assert forall v :: v in prefix ==> v in validators;
    }
  }

  /** With distinct indices every validator of the list is kept, and the map has one entry per validator. */
  lemma {:induction false} ByShareIndexKeepsAll(validators: seq<Validator>)
    requires DistinctShareIndices(validators)
    ensures |ByShareIndex(validators)| == |validators|
    ensures forall j :: 0 <= j < |validators| ==>
      validators[j].shareIndex in ByShareIndex(validators) && ByShareIndex(validators)[validators[j].shareIndex] == validators[j]
  {
    if |validators| != 0 {
      var n := |validators| - 1;
      var prefix := validators[..n];
      var last := validators[n];
      assert DistinctShareIndices(prefix);
      ByShareIndexKeepsAll(prefix);
      ByShareIndexKeys(prefix);
      forall j | 0 <= j < |validators|
        ensures validators[j].shareIndex in ByShareIndex(validators)
        ensures ByShareIndex(validators)[validators[j].shareIndex] == validators[j]
      {
        if j < n {
          assert prefix[j] == validators[j];
          assert validators[j].shareIndex != last.shareIndex;
        }
      }
    }
  }

  /** The DKG context: parameters, validators by share index, domain elements and the local validator. */
  datatype Dkg = Dkg(dkgParams: DkgParams, validators: map<nat, Validator>, domain: seq<Scalar>, me: Validator)

  /** Every validator is stored under its own share index, and the domain has a point for each. */
  predicate WellFormed(dkg: Dkg)
  {
    (forall k :: k in dkg.validators ==> dkg.validators[k].shareIndex == k)
    && |dkg.domain| >= |dkg.validators|
  }

  /** The list holds a validator with me's share index and public key. */
  predicate MeListed(validators: seq<Validator>, me: Validator)
  {
    exists j :: 0 <= j < |validators| && validators[j].shareIndex == me.shareIndex && validators[j].publicKey == me.publicKey
  }

  /**
   * `PubliclyVerifiableDkg::new`: reject repeated share indices, key the
   * validators by share index, then require that `me` is one of them with the
   * same public key. `domain` holds the elements of the domain built for
   * `validators.len()` points.
   */
  function NewDkg(validators: seq<Validator>, dkgParams: DkgParams, me: Validator, domain: seq<Scalar>): (r: Outcome<Dkg>)
    requires |domain| == DomainSize(|validators|)
  {
    match AssertNoShareDuplicates(validators)
    case Failure(e) => Failure(e)
    case Success(_) =>
      var byIndex := ByShareIndex(validators);
      if me.shareIndex in byIndex then
        if byIndex[me.shareIndex].publicKey != me.publicKey then Failure(ValidatorPublicKeyMismatch)
        else Success(Dkg(dkgParams, byIndex, domain, me))
      else Failure(DealerNotInValidatorSet(me.address))
  }

  /**
   * The constructor succeeds exactly when the share indices are distinct and
   * `me` is listed with its key; the context then holds every validator under
   * its index and is well formed. Otherwise the error names the first check
   * that failed, in the order of the source.
   */
  lemma NewDkgSpec(validators: seq<Validator>, dkgParams: DkgParams, me: Validator, domain: seq<Scalar>)
    requires |domain| == DomainSize(|validators|)
    ensures NewDkg(validators, dkgParams, me, domain).Success? <==>
      DistinctShareIndices(validators) && MeListed(validators, me)
    ensures !DistinctShareIndices(validators) ==>
      NewDkg(validators, dkgParams, me, domain).error.DuplicatedShareIndex?
      && IsRepeated(validators, NewDkg(validators, dkgParams, me, domain).error.shareIndex)
    ensures DistinctShareIndices(validators) && !HasIndex(validators, me.shareIndex) ==>
      NewDkg(validators, dkgParams, me, domain) == Failure(DealerNotInValidatorSet(me.address))
    ensures DistinctShareIndices(validators) && HasIndex(validators, me.shareIndex) && !MeListed(validators, me) ==>
      NewDkg(validators, dkgParams, me, domain) == Failure(ValidatorPublicKeyMismatch)
    ensures NewDkg(validators, dkgParams, me, domain).Success? ==>
      var dkg := NewDkg(validators, dkgParams, me, domain).value;
      WellFormed(dkg) && |dkg.validators| == |validators|
      && dkg.dkgParams == dkgParams && dkg.me == me && dkg.domain == domain
      && forall j :: 0 <= j < |validators| ==>
           validators[j].shareIndex in dkg.validators && dkg.validators[validators[j].shareIndex] == validators[j]
  {
    ByShareIndexKeys(validators);
    var byIndex := ByShareIndex(validators);
    if DistinctShareIndices(validators) {
      ByShareIndexKeepsAll(validators);
      if MeListed(validators, me) {
        var i :| 0 <= i < |validators| && validators[i].shareIndex == me.shareIndex && validators[i].publicKey == me.publicKey;
        assert byIndex[me.shareIndex] == validators[i];
      } else if HasIndex(validators, me.shareIndex) {
        var j :| 0 <= j < |validators| && validators[j].shareIndex == me.shareIndex;
        assert byIndex[me.shareIndex] == validators[j];
      }
    }
  }


  /** The first validator of the list carrying the public key, as a position. */
  function FindByKey(validators: seq<Validator>, publicKey: G2): (r: Option<nat>)
    ensures r.Some? ==>
      r.value < |validators| && validators[r.value].publicKey == publicKey
      && forall i :: 0 <= i < r.value ==> validators[i].publicKey != publicKey
    ensures r.None? <==> forall i :: 0 <= i < |validators| ==> validators[i].publicKey != publicKey
  {
    if |validators| == 0 then None
    else if validators[0].publicKey == publicKey then Some(0)
    else
      match FindByKey(validators[1..], publicKey)
      case None => None
      case Some(i) => Some(i + 1)
  }

  /** `get_validator`: the first validator, in ascending share-index order, with the given key. */
  function GetValidator(dkg: Dkg, publicKey: G2): (r: Option<Validator>)
  {
    var vs := ValuesInKeyOrder(dkg.validators);
    match FindByKey(vs, publicKey)
    case None => None
    case Some(i) => Some(vs[i])
  }

  /**
   * A validator is found exactly when some validator has the key; the one
   * found has the key, belongs to the context, and no validator at a smaller
   * share index has the key.
   */
  lemma GetValidatorSpec(dkg: Dkg, publicKey: G2)
    requires WellFormed(dkg)
    ensures GetValidator(dkg, publicKey).None? <==>
      forall k :: k in dkg.validators ==> dkg.validators[k].publicKey != publicKey
    ensures GetValidator(dkg, publicKey).Some? ==>
      var v := GetValidator(dkg, publicKey).value;
      v.publicKey == publicKey && v.shareIndex in dkg.validators && dkg.validators[v.shareIndex] == v
      && forall k :: k in dkg.validators && k < v.shareIndex ==> dkg.validators[k].publicKey != publicKey
  {
    var vs := ValuesInKeyOrder(dkg.validators);
    var keys := Sorted(dkg.validators.Keys);
    match FindByKey(vs, publicKey)
    case None =>
      forall k | k in dkg.validators
        ensures dkg.validators[k].publicKey != publicKey
      {
        var i := PositionInKeyOrder(dkg.validators, k);
      }
    case Some(i) =>
      assert vs[i] == dkg.validators[keys[i]];
      SortedIncreasing(dkg.validators.Keys);
      forall k | k in dkg.validators && k < vs[i].shareIndex
        ensures dkg.validators[k].publicKey != publicKey
      {
        var i' := PositionInKeyOrder(dkg.validators, k);
        assert i' < i;
      }
  }

  // ---------------------------------------------------------------------------
  // Domain points

  function Min(a: nat, b: nat): nat
  {
    if a <= b then a else b
  }

  /** `domain_points`: the first `validators.len()` elements of the domain. */
  function DomainPoints(dkg: Dkg): (points: seq<Scalar>)
    ensures |points| <= |dkg.validators|
    ensures WellFormed(dkg) ==> |points| == |dkg.validators|
    ensures points <= dkg.domain
  {
    dkg.domain[..Min(|dkg.validators|, |dkg.domain|)]
  }

  /** `get_domain_point`: the domain point of a share index, or InvalidShareIndex past the last validator. */
  function GetDomainPoint(dkg: Dkg, shareIndex: nat): (r: Outcome<Scalar>)
    ensures WellFormed(dkg) ==> (r.Success? <==> shareIndex < |dkg.validators|)
    ensures r.Success? ==> shareIndex < |dkg.domain| && r.value == dkg.domain[shareIndex]
    ensures r.Failure? ==> r.error == InvalidShareIndex(shareIndex) && shareIndex >= |DomainPoints(dkg)|
  {
    var points := DomainPoints(dkg);
    if shareIndex < |points| then Success(points[shareIndex]) else Failure(InvalidShareIndex(shareIndex))
  }

  /** `domain_point_map`: share index i to the i-th domain point, for every position of `domain_points`. */
  function DomainPointMap(dkg: Dkg): (m: map<nat, Scalar>)
    ensures m.Keys == RangeSet(|DomainPoints(dkg)|)
    ensures forall i :: i in m ==> i < |dkg.domain| && m[i] == dkg.domain[i]
  {
    var points := DomainPoints(dkg);
    map i | i in RangeSet(|points|) :: points[i]
  }

  /** `domain_and_key_map` unwraps a lookup in the domain point map for every validator. */
  predicate PointForEveryValidator(dkg: Dkg)
  {
    forall k :: k in dkg.validators ==> dkg.validators[k].shareIndex < |DomainPoints(dkg)|
  }

  /**
   * `domain_and_key_map`: for every validator, in ascending share-index order,
   * its share index to its domain point and public key; a later validator with
   * the same index replaces an earlier one.
   */
  function DomainAndKeyMap(dkg: Dkg): map<nat, (Scalar, G2)>
    requires PointForEveryValidator(dkg)
  {
    var vs := ValuesInKeyOrder(dkg.validators);
    var byIndex := ByShareIndex(vs);
    var points := DomainPointMap(dkg);
    ByShareIndexKeys(vs);
    map k | k in byIndex :: (points[k], byIndex[k].publicKey)
  }

  /** The validator values in key order of a well-formed context carry distinct share indices. */
  lemma ValuesHaveDistinctIndices(dkg: Dkg)
    requires WellFormed(dkg)
    ensures forall j :: 0 <= j < |ValuesInKeyOrder(dkg.validators)| ==>
      ValuesInKeyOrder(dkg.validators)[j].shareIndex == Sorted(dkg.validators.Keys)[j]
    ensures DistinctShareIndices(ValuesInKeyOrder(dkg.validators))
  {
    SortedIncreasing(dkg.validators.Keys);
  }

  /**
   * In a well-formed context the domain-and-key map has exactly the share
   * indices of the validators as keys, each with the domain element at that
   * index and that validator's key.
   */
  lemma DomainAndKeyMapSpec(dkg: Dkg)
    requires WellFormed(dkg) && PointForEveryValidator(dkg)
    ensures DomainAndKeyMap(dkg).Keys == dkg.validators.Keys
    ensures forall k :: k in dkg.validators ==>
      k < |dkg.domain| && DomainAndKeyMap(dkg)[k] == (dkg.domain[k], dkg.validators[k].publicKey)
  {
    ByShareIndexOfWellFormed(dkg);
  }

  /** In a well-formed context, grouping the validators by share index gives back the validator map. */
  lemma ByShareIndexOfWellFormed(dkg: Dkg)
    requires WellFormed(dkg)
    ensures ByShareIndex(ValuesInKeyOrder(dkg.validators)) == dkg.validators
  {
    var vs := ValuesInKeyOrder(dkg.validators);
    var byIndex := ByShareIndex(vs);
    ByShareIndexKeys(vs);
    ValuesHaveDistinctIndices(dkg);
    ByShareIndexKeepsAll(vs);
    forall k | k in dkg.validators
      ensures k in byIndex && byIndex[k] == dkg.validators[k]
    {
      var i := PositionInKeyOrder(dkg.validators, k);
      assert vs[i].shareIndex == k;
    }
    forall k | k in byIndex
      ensures k in dkg.validators
    {
      var j :| 0 <= j < |vs| && vs[j].shareIndex == k;
    }
  }

  // ---------------------------------------------------------------------------
  // verify_transcripts

  /** A received message: the dealer and its transcript. */
  type ValidatorMessage = (Validator, Pvss)

  /** The outcome of admitting a batch of messages; Panics where `verify_optimistic` reads a missing coefficient. */
  datatype Admission = Admitted | Rejected(error: Error) | Panics

  /**
   * The messages are checked in order against the senders and transcripts
   * already accepted: an unknown share index, a repeated address, a repeated
   * transcript and a failed optimistic check are rejected, the first failure
   * deciding; at the end, more senders or transcripts than validators are
   * rejected.
   */
  function Admit(validators: map<nat, Validator>, messages: seq<ValidatorMessage>, senders: set<EthereumAddress>, seen: set<Pvss>): Admission
    decreases |messages|
  {
    if |messages| == 0 then
      if |senders| > |validators| || |seen| > |validators| then Rejected(TooManyTranscripts(|validators|, |senders|))
      else Admitted
    else
      var (sender, t) := messages[0];
      if sender.shareIndex !in validators then Rejected(UnknownDealer(sender.address))
      else if sender.address in senders then Rejected(DuplicateDealer(sender.address))
      else if t in seen then Rejected(DuplicateTranscript(sender.address))
      else if |t.coeffs| == 0 then Panics
      else if !VerifyOptimistic(t) then Rejected(InvalidPvssTranscript(sender.address))
      else Admit(validators, messages[1..], senders + {sender.address}, seen + {t})
  }

  /** `verify_transcripts`: one pass over the messages with the sets of accepted senders and transcripts. */
  method VerifyTranscripts(dkg: Dkg, messages: seq<ValidatorMessage>) returns (r: Outcome<()>)
    requires Admit(dkg.validators, messages, {}, {}) != Panics
    ensures r.Success? <==> Admit(dkg.validators, messages, {}, {}) == Admitted
    ensures r.Failure? ==> Admit(dkg.validators, messages, {}, {}) == Rejected(r.error)
  {
    var senders: set<EthereumAddress> := {};
    var seen: set<Pvss> := {};
    for i := 0 to |messages|
      invariant Admit(dkg.validators, messages[i..], senders, seen) == Admit(dkg.validators, messages, {}, {})
    {
      assert messages[i..][0] == messages[i] && messages[i..][1..] == messages[i + 1..];
      var (sender, t) := messages[i];
      if sender.shareIndex !in dkg.validators {
        return Failure(UnknownDealer(sender.address));
      } else if sender.address in senders {
        return Failure(DuplicateDealer(sender.address));
      } else if t in seen {
        return Failure(DuplicateTranscript(sender.address));
      } else if !VerifyOptimistic(t) {
        return Failure(InvalidPvssTranscript(sender.address));
      }
      senders := senders + {sender.address};
      seen := seen + {t};
    }
    if |senders| > |dkg.validators| || |seen| > |dkg.validators| {
      return Failure(TooManyTranscripts(|dkg.validators|, |senders|));
    }
    r := Success(());
  }

  /** Message i passes the per-message checks against the sets it starts from. */
  predicate MessageAdmissible(validators: map<nat, Validator>, m: ValidatorMessage, senders: set<EthereumAddress>, seen: set<Pvss>)
  {
    m.0.shareIndex in validators && m.0.address !in senders && m.1 !in seen
    && |m.1.coeffs| > 0 && VerifyOptimistic(m.1)
  }

  /** Every message passes on its own and no two messages share a sender address or a transcript. */
  predicate AllAdmissible(validators: map<nat, Validator>, messages: seq<ValidatorMessage>, senders: set<EthereumAddress>, seen: set<Pvss>)
  {
    (forall i :: 0 <= i < |messages| ==> MessageAdmissible(validators, messages[i], senders, seen))
    && (forall i, j :: 0 <= i < j < |messages| ==>
          messages[i].0.address != messages[j].0.address && messages[i].1 != messages[j].1)
  }

  /** Each message is admissible against the sets grown by the messages before it. */
  predicate AdmissibleInOrder(validators: map<nat, Validator>, messages: seq<ValidatorMessage>, senders: set<EthereumAddress>, seen: set<Pvss>)
    decreases |messages|
  {
    |messages| == 0
    || (MessageAdmissible(validators, messages[0], senders, seen)
        && AdmissibleInOrder(validators, messages[1..], senders + {messages[0].0.address}, seen + {messages[0].1}))
  }

  /** Admission in terms of the step-by-step condition and the final count. */
  lemma {:induction false} AdmitInOrder(validators: map<nat, Validator>, messages: seq<ValidatorMessage>, senders: set<EthereumAddress>, seen: set<Pvss>)
    requires |senders| == |seen|
    ensures Admit(validators, messages, senders, seen) == Admitted <==>
      AdmissibleInOrder(validators, messages, senders, seen) && |senders| + |messages| <= |validators|
    decreases |messages|
  {
    if |messages| != 0 {
      var m := messages[0];
      var senders' := senders + {m.0.address};
      var seen' := seen + {m.1};
      if MessageAdmissible(validators, m, senders, seen) {
        assert |senders'| == |senders| + 1 && |seen'| == |seen| + 1;
        AdmitInOrder(validators, messages[1..], senders', seen');
      }
    }
  }

  /** Admissible messages that outnumber the validators are rejected once all are accepted. */
  lemma {:induction false} AdmitInOrderTooMany(validators: map<nat, Validator>, messages: seq<ValidatorMessage>, senders: set<EthereumAddress>, seen: set<Pvss>)
    requires |senders| == |seen|
    requires AdmissibleInOrder(validators, messages, senders, seen) && |senders| + |messages| > |validators|
    ensures Admit(validators, messages, senders, seen) == Rejected(TooManyTranscripts(|validators|, |senders| + |messages|))
    decreases |messages|
  {
    if |messages| != 0 {
      var m := messages[0];
      var senders' := senders + {m.0.address};
      var seen' := seen + {m.1};
      assert |senders'| == |senders| + 1 && |seen'| == |seen| + 1;
      AdmitInOrderTooMany(validators, messages[1..], senders', seen');
    }
  }

  /** The step-by-step condition is the same as every message admissible and no two alike. */
  lemma {:induction false} AdmissibleInOrderIsAll(validators: map<nat, Validator>, messages: seq<ValidatorMessage>, senders: set<EthereumAddress>, seen: set<Pvss>)
    ensures AdmissibleInOrder(validators, messages, senders, seen) <==> AllAdmissible(validators, messages, senders, seen)
    decreases |messages|
  {
    if |messages| != 0 {
      var m := messages[0];
      AllAdmissibleUnfold(validators, messages, senders, seen);
      AdmissibleInOrderIsAll(validators, messages[1..], senders + {m.0.address}, seen + {m.1});
    }
  }

  /**
   * The batch is admitted exactly when every message is admissible and the
   * accepted senders do not outnumber the validators.
   */
  lemma AdmitSpec(validators: map<nat, Validator>, messages: seq<ValidatorMessage>)
    ensures Admit(validators, messages, {}, {}) == Admitted <==>
      AllAdmissible(validators, messages, {}, {}) && |messages| <= |validators|
  {
    AdmitInOrder(validators, messages, {}, {});
    AdmissibleInOrderIsAll(validators, messages, {}, {});
  }

  /** Admissible messages outnumbering the validators are rejected with TooManyTranscripts. */
  lemma AdmitRejectsTooMany(validators: map<nat, Validator>, messages: seq<ValidatorMessage>)
    requires AllAdmissible(validators, messages, {}, {}) && |messages| > |validators|
    ensures Admit(validators, messages, {}, {}) == Rejected(TooManyTranscripts(|validators|, |messages|))
  {
    AdmissibleInOrderIsAll(validators, messages, {}, {});
    AdmitInOrderTooMany(validators, messages, {}, {});
  }

  /** A batch is admissible when its first message is, and the rest are against the sets grown by it. */
  lemma AllAdmissibleUnfold(validators: map<nat, Validator>, messages: seq<ValidatorMessage>, senders: set<EthereumAddress>, seen: set<Pvss>)
    requires |messages| > 0
    ensures AllAdmissible(validators, messages, senders, seen) <==>
      MessageAdmissible(validators, messages[0], senders, seen)
      && AllAdmissible(validators, messages[1..], senders + {messages[0].0.address}, seen + {messages[0].1})
  {
    var rest := messages[1..];
    var senders' := senders + {messages[0].0.address};
    var seen' := seen + {messages[0].1};
    if AllAdmissible(validators, messages, senders, seen) {
      forall i | 0 <= i < |rest|
        ensures MessageAdmissible(validators, rest[i], senders', seen')
      {
        assert rest[i] == messages[i + 1];
      }
    }
    if MessageAdmissible(validators, messages[0], senders, seen) && AllAdmissible(validators, rest, senders', seen') {
      forall i | 0 <= i < |messages|
        ensures MessageAdmissible(validators, messages[i], senders, seen)
      {
        if i > 0 {
          assert messages[i] == rest[i - 1];
        }
      }
      forall i, j | 0 <= i < j < |messages|
        ensures messages[i].0.address != messages[j].0.address && messages[i].1 != messages[j].1
      {
        assert messages[j] == rest[j - 1];
        if i > 0 {
          assert messages[i] == rest[i - 1];
        }
      }
    }
  }

  /** The transcripts of the messages, in message order. */
  function TranscriptsOf(messages: seq<ValidatorMessage>): (ts: seq<Pvss>)
    ensures |ts| == |messages| && forall i :: 0 <= i < |messages| ==> ts[i] == messages[i].1
  {
    seq(|messages|, i requires 0 <= i < |messages| => messages[i].1)
  }

  /** An admitted batch has a first coefficient in every transcript. */
  lemma {:induction false} AdmittedHaveCoefficients(validators: map<nat, Validator>, messages: seq<ValidatorMessage>, senders: set<EthereumAddress>, seen: set<Pvss>)
    requires Admit(validators, messages, senders, seen) == Admitted
    ensures forall i :: 0 <= i < |messages| ==> |messages[i].1.coeffs| > 0
    decreases |messages|
  {
    if |messages| != 0 {
      var (sender, t) := messages[0];
      AdmittedHaveCoefficients(validators, messages[1..], senders + {sender.address}, seen + {t});
      forall i | 0 < i < |messages|
        ensures |messages[i].1.coeffs| > 0
      {
        assert messages[i] == messages[1..][i - 1];
      }
    }
  }

  /**
   * `aggregate_transcripts`: admit the messages, then aggregate their
   * transcripts in message order. Aggregation panics on transcripts of
   * different lengths, which the caller must rule out for admitted batches.
   */
  method AggregateTranscripts(dkg: Dkg, messages: seq<ValidatorMessage>) returns (r: Outcome<AggregatedTranscript>)
    requires Admit(dkg.validators, messages, {}, {}) != Panics
    requires Admit(dkg.validators, messages, {}, {}) == Admitted ==> SameShape(TranscriptsOf(messages))
    ensures r.Success? <==> Admit(dkg.validators, messages, {}, {}) == Admitted && |messages| > 0
    ensures Admit(dkg.validators, messages, {}, {}).Rejected? ==> r == Failure(Admit(dkg.validators, messages, {}, {}).error)
    ensures Admit(dkg.validators, messages, {}, {}) == Admitted && |messages| == 0 ==> r == Failure(NoTranscriptsToAggregate)
    ensures r.Success? ==>
      IsAggregateOf(r.value.aggregate, TranscriptsOf(messages))
      && r.value.publicKey == ColumnSum(TranscriptsOf(messages), CoeffColumn, 0, |messages|)
  {
    var verified := VerifyTranscripts(dkg, messages);
    if verified.Failure? {
      return Failure(verified.error);
    }
    var transcripts := TranscriptsOf(messages);
    AdmittedHaveCoefficients(dkg.validators, messages, {}, {});
    r := FromTranscripts(transcripts);
  }

  // ---------------------------------------------------------------------------
  // Dealing and verifying transcripts within the context

  /**
   * `generate_transcript`: deal a fresh secret with threshold - 1 further
   * random coefficients to the validators at their domain points. `s` and
   * `draws` stand for the random generator's output.
   */
  method GenerateTranscript(dkg: Dkg, s: Scalar, draws: seq<Scalar>) returns (r: Outcome<Pvss>)
    requires dkg.dkgParams.securityThreshold >= 1 && |draws| == dkg.dkgParams.securityThreshold
    requires PointForEveryValidator(dkg)
    ensures r.Success?
    ensures |r.value.coeffs| == dkg.dkgParams.securityThreshold && |r.value.shares| == |dkg.validators|
    ensures r.value.coeffs[0] == G1Generator * s && r.value.sigma == G2Generator * s
    ensures DealtTo(r.value, [s] + draws[1..], ValuesInKeyOrder(dkg.validators), DomainPoints(dkg))
  {
    r := NewPvss(s, dkg.dkgParams.securityThreshold, dkg.validators, DomainPoints(dkg), draws);
  }

  /** `PubliclyVerifiableSS::verify_full` on the context's validators, in share-index order, and domain. */
  method VerifyFullInDkg(t: Pvss, dkg: Dkg) returns (r: Outcome<bool>)
    ensures r == VerifyFull(t.coeffs, t.shares, ValuesInKeyOrder(dkg.validators), dkg.domain)
  {
    r := DoVerifyFull(t.coeffs, t.shares, ValuesInKeyOrder(dkg.validators), dkg.domain);
  }

  /** `PubliclyVerifiableSS::verify_aggregation` on the context's validators and domain. */
  method VerifyAggregation(agg: Pvss, dkg: Dkg, transcripts: seq<Pvss>) returns (r: Outcome<bool>)
    requires AggregationDefined(agg.coeffs, agg.shares, ValuesInKeyOrder(dkg.validators), dkg.domain, transcripts)
    ensures r != Success(false)
    ensures r == Success(true) <==>
      VerifyFull(agg.coeffs, agg.shares, ValuesInKeyOrder(dkg.validators), dkg.domain) == Success(true)
      && ColumnSum(transcripts, CoeffColumn, 0, |transcripts|) == agg.coeffs[0]
  {
    r := DoVerifyAggregation(agg.coeffs, agg.shares, ValuesInKeyOrder(dkg.validators), dkg.domain, transcripts);
  }

  /** The validators of a context are numbered 0, ..., n-1. */
  predicate Canonical(dkg: Dkg)
  {
    WellFormed(dkg) && dkg.validators.Keys == RangeSet(|dkg.validators|)
  }

  /** In a canonical context the j-th validator in key order holds share index j and the j-th domain point. */
  lemma CanonicalAtOwnPositions(dkg: Dkg)
    requires Canonical(dkg)
    ensures AtOwnPositions(ValuesInKeyOrder(dkg.validators), DomainPoints(dkg), dkg.domain)
    ensures PointForEveryValidator(dkg)
  {
    var n := |dkg.validators|;
    SortedRange(n);
    ValuesHaveDistinctIndices(dkg);
  }

  /**
   * Completeness of the DKG round: transcripts dealt by `generate_transcript`
   * in a canonical context, aggregated, pass `verify_aggregation`, and the
   * aggregate's public key commits to the sum of the dealt secrets.
   */
  lemma DealtRoundVerifies(dkg: Dkg, transcripts: seq<Pvss>, phis: seq<Poly>, w: nat, agg: Pvss)
    requires Canonical(dkg)
    requires DealtFromEach(transcripts, phis, w, ValuesInKeyOrder(dkg.validators), DomainPoints(dkg))
    requires 0 < |phis| && 0 < w <= |dkg.domain|
    requires SameShape(transcripts) && IsAggregateOf(agg, transcripts)
    ensures |agg.coeffs| <= |dkg.domain|
    ensures AggregationDefined(agg.coeffs, agg.shares, ValuesInKeyOrder(dkg.validators), dkg.domain, transcripts)
    ensures VerifyFull(agg.coeffs, agg.shares, ValuesInKeyOrder(dkg.validators), dkg.domain) == Success(true)
    ensures ColumnSum(transcripts, CoeffColumn, 0, |transcripts|) == agg.coeffs[0]
    ensures agg.coeffs[0] == G1Generator * TpkeRefresh.DealtSum(phis, |phis|, 0.0)
  {
    CanonicalAtOwnPositions(dkg);
    AggregateOfDealtVerifies(agg, transcripts, phis, w, ValuesInKeyOrder(dkg.validators), DomainPoints(dkg), dkg.domain);
    AggregatedPublicKeyIsSumOfSecrets(agg, transcripts, phis, w, ValuesInKeyOrder(dkg.validators), DomainPoints(dkg));
  }

  // ---------------------------------------------------------------------------
  // generate_refresh_transcript

  /**
   * `generate_refresh_transcript`: a refresh transcript dealing a polynomial
   * with root 0, of the security threshold's width, to every validator at its
   * domain point and key. `draws` stands for the random generator's output.
   */
  method GenerateRefreshTranscript(dkg: Dkg, draws: seq<Scalar>) returns (r: Outcome<FerveoRefresh.UpdateTranscript>)
    requires PointForEveryValidator(dkg)
    requires dkg.dkgParams.securityThreshold >= 1 && |draws| == dkg.dkgParams.securityThreshold
    ensures r.Success?
    ensures |r.value.coeffs| == dkg.dkgParams.securityThreshold && r.value.coeffs[0] == 0.0
    ensures FerveoRefresh.DealtFrom(r.value, DomainAndKeyMap(dkg), TpkeRefresh.ZeroedAt(0.0, draws[1..]))
  {
    var t := FerveoRefresh.CreateRefreshUpdates(DomainAndKeyMap(dkg), dkg.dkgParams.securityThreshold, draws);
    r := Success(t);
  }
}
