/**
 * The older DKG state machine of ferveo/src/dkg/pv.rs: a participant deals
 * once in its block window, collects dealings until enough are applied, then
 * aggregates them into the final key.
 *
 * States: Sharing{accumulated_shares, block} -> Dealt -> Success{final_key};
 * Invalid is never entered by these methods. The transcripts received are
 * stored in `vss`, keyed by the dealer's position in the validator list.
 *
 * The evaluation domain and the conversion of the consensus validator set into
 * DKG validators (`make_validators`) come from code that is not part of this
 * model; they are parameters of the constructor.
 */
module DkgPv {
  import opened Field
  import opened Polynomial
  import opened EvaluationDomain
  import opened NatSets
  import opened FerveoValidator
  import opened FerveoPvss
  import opened VssPvss

  datatype Params = Params(tau: nat, securityThreshold: nat, sharesNum: nat, retryAfter: nat)

  datatype DkgState = Sharing(accumulatedShares: nat, block: nat) | Dealt | Success(finalKey: G1) | Invalid

  datatype PvssScheduler = Issue | Wait

  datatype Aggregation = Aggregation(vss: Pvss, finalKey: G1)

  datatype Message = Deal(pvss: Pvss) | Aggregate(aggregation: Aggregation)

  // ---------------------------------------------------------------------------
  // Positions and windows

  /** `iter().position(...)`: the first position holding the address. */
  function FindAddress(addresses: seq<string>, a: string): (r: Option<nat>)
    ensures r.Some? ==>
      r.value < |addresses| && addresses[r.value] == a
      && forall i :: 0 <= i < r.value ==> addresses[i] != a
    ensures r.None? <==> a !in addresses
  {
    if |addresses| == 0 then None
    else if addresses[0] == a then Some(0)
    else
      match FindAddress(addresses[1..], a)
      case None => None
      case Some(i) => Some(i + 1)
  }

  function ConsensusAddresses(validatorSet: seq<TendermintValidator>): (r: seq<string>)
    ensures |r| == |validatorSet| && forall i :: 0 <= i < |r| ==> r[i] == validatorSet[i].address
  {
    seq(|validatorSet|, i requires 0 <= i < |validatorSet| => validatorSet[i].address)
  }

  function DkgAddresses(validators: seq<DkgValidator>): (r: seq<string>)
    ensures |r| == |validators| && forall i :: 0 <= i < |r| ==> r[i] == validators[i].validator.address
  {
    seq(|validators|, i requires 0 <= i < |validators| => validators[i].validator.address)
  }

  /** Floor division brackets its dividend. */
  lemma DivBounds(a: nat, d: nat)
    requires d > 0
    ensures d * (a / d) <= a < d * (a / d) + d
  {
    assert a == (a / d) * d + a % d;
  }

  lemma MulLess(d: int, x: int, y: int)
    requires d > 0 && d * x < d * y
    ensures x < y
  {
  }

  /** A multiple of d leaves no remainder. */
  lemma MultipleMod(d: nat, q: nat)
    requires d > 0
    ensures (d * q) % d == 0
  {
    var x := d * q;
    var k := x / d;
    assert x == k * d + x % d;
    assert d * k <= d * q < d * k + d;
    MulLess(d, k, q + 1);
    assert d * (k + 1) == d * k + d;
    assert d * (q + 1) == d * q + d;
    MulLess(d, q, k + 1);
  }

  /**
   * The block window of the validator at position me: it starts at the
   * multiple of retry_after at or below 2·me and lasts retry_after blocks.
   */
  function Window(me: nat, retryAfter: nat): (w: (nat, nat))
    requires retryAfter > 0
    ensures w.1 == w.0 + retryAfter
    ensures w.0 % retryAfter == 0 && w.0 <= 2 * me < w.0 + retryAfter
  {
    var partition := retryAfter * (2 * me / retryAfter);
    DivBounds(2 * me, retryAfter);
    MultipleMod(retryAfter, 2 * me / retryAfter);
    (partition, partition + retryAfter)
  }

  /** With retry_after = 2 the validator at position i owns the blocks (2i, 2i+2]. */
  lemma WindowsOfRetryTwo(i: nat)
    ensures Window(i, 2) == (2 * i, 2 * i + 2)
  {
  }

  // ---------------------------------------------------------------------------
  // The block scheduler

  /**
   * One block of `increase_block`: only while sharing and before the own
   * transcript is stored does the block counter advance; it advises to issue
   * at the window's first block, and when the window has passed it restarts
   * the window and advises to issue again.
   */
  function NextBlock(s: DkgState, window: (nat, nat), ownDealt: bool): (DkgState, PvssScheduler)
  {
    if s.Sharing? && !ownDealt then
      var b := s.block + 1;
      if window.0 + 1 == b then (Sharing(s.accumulatedShares, b), Issue)
      else if window.1 < b then (Sharing(s.accumulatedShares, window.0 + 1), Issue)
      else (Sharing(s.accumulatedShares, b), Wait)
    else (s, Wait)
  }

  /**
   * Issue is advised exactly when the counter lands on the window's first
   * block; outside the sharing state, or once the own transcript is stored,
   * nothing changes.
   */
  lemma NextBlockSpec(s: DkgState, window: (nat, nat), ownDealt: bool)
    ensures !s.Sharing? || ownDealt ==> NextBlock(s, window, ownDealt) == (s, Wait)
    ensures s.Sharing? && !ownDealt ==>
      NextBlock(s, window, ownDealt).0.Sharing?
      && NextBlock(s, window, ownDealt).0.accumulatedShares == s.accumulatedShares
      && (NextBlock(s, window, ownDealt).1 == Issue <==> NextBlock(s, window, ownDealt).0.block == window.0 + 1)
    ensures s.Sharing? && !ownDealt && s.block <= window.1 && window.0 < window.1 ==>
      NextBlock(s, window, ownDealt).0.block <= window.1
  {
  }

  /** n blocks while sharing and before the own transcript is stored: the final state and the advice of each block. */
  function RunBlocks(s: DkgState, window: (nat, nat), n: nat): (DkgState, seq<PvssScheduler>)
    decreases n
  {
    if n == 0 then (s, [])
    else
      var step := NextBlock(s, window, false);
      var rest := RunBlocks(step.0, window, n - 1);
      (rest.0, [step.1] + rest.1)
  }

  function Waits(n: nat): (r: seq<PvssScheduler>)
    ensures |r| == n && forall i :: 0 <= i < n ==> r[i] == Wait
  {
    if n == 0 then [] else [Wait] + Waits(n - 1)
  }

  /**
   * Counting from any block up to the window's start, the scheduler waits and
   * then advises to issue exactly at the window's first block.
   */
  lemma {:induction false} FirstIssueAtWindowStart(acc: nat, b: nat, window: (nat, nat))
    requires b <= window.0 < window.1
    ensures RunBlocks(Sharing(acc, b), window, window.0 + 1 - b) == (Sharing(acc, window.0 + 1), Waits(window.0 - b) + [Issue])
    decreases window.0 - b
  {
    var n := window.0 + 1 - b;
    var step := NextBlock(Sharing(acc, b), window, false);
    assert RunBlocks(Sharing(acc, b), window, n)
      == (RunBlocks(step.0, window, n - 1).0, [step.1] + RunBlocks(step.0, window, n - 1).1);
    if b < window.0 {
      assert step == (Sharing(acc, b + 1), Wait);
      FirstIssueAtWindowStart(acc, b + 1, window);
      assert n - 1 == window.0 + 1 - (b + 1);
      assert Waits(window.0 - b) == [Wait] + Waits(window.0 - (b + 1));
      assert [Wait] + (Waits(window.0 - (b + 1)) + [Issue]) == Waits(window.0 - b) + [Issue];
    } else {
      assert step == (Sharing(acc, window.0 + 1), Issue);
      var rest := RunBlocks(step.0, window, n - 1);
      assert n - 1 == 0;
      assert rest == (step.0, []);
      assert [step.1] + rest.1 == [Issue];
      assert RunBlocks(Sharing(acc, b), window, n) == (Sharing(acc, window.0 + 1), [Issue]);
      assert Waits(0) + [Issue] == [Issue];
    }
  }

  /**
   * Inside the window the scheduler waits until the window has passed, then
   * advises to issue again and restarts at the window's first block: the own
   * transcript is re-issued every retry_after blocks.
   */
  lemma {:induction false} ReissueAfterWindow(acc: nat, b: nat, window: (nat, nat))
    requires window.0 < b <= window.1
    ensures RunBlocks(Sharing(acc, b), window, window.1 - b + 1) == (Sharing(acc, window.0 + 1), Waits(window.1 - b) + [Issue])
    decreases window.1 - b
  {
    var n := window.1 - b + 1;
    var step := NextBlock(Sharing(acc, b), window, false);
    assert RunBlocks(Sharing(acc, b), window, n)
      == (RunBlocks(step.0, window, n - 1).0, [step.1] + RunBlocks(step.0, window, n - 1).1);
    if b < window.1 {
      assert step == (Sharing(acc, b + 1), Wait);
      ReissueAfterWindow(acc, b + 1, window);
      assert n - 1 == window.1 - (b + 1) + 1;
      assert Waits(window.1 - b) == [Wait] + Waits(window.1 - (b + 1));
      assert [Wait] + (Waits(window.1 - (b + 1)) + [Issue]) == Waits(window.1 - b) + [Issue];
    } else {
      assert step == (Sharing(acc, window.0 + 1), Issue);
      var rest := RunBlocks(step.0, window, n - 1);
      assert n - 1 == 0;
      assert rest == (step.0, []);
      assert [step.1] + rest.1 == [Issue];
      assert RunBlocks(Sharing(acc, b), window, n) == (Sharing(acc, window.0 + 1), [Issue]);
      assert Waits(0) + [Issue] == [Issue];
    }
  }

  // ---------------------------------------------------------------------------
  // The DKG participant

  class PvDkg {
    var params: Params
    var validators: seq<DkgValidator>
    var vss: map<nat, Pvss>
    var domain: seq<Scalar>
    var state: DkgState
    var me: nat
    var window: (nat, nat)

    /** A fresh participant in Sharing{0, 0} with no transcripts. */
    constructor (params: Params, validators: seq<DkgValidator>, domain: seq<Scalar>, me: nat, window: (nat, nat))
      requires |domain| == DomainSize(params.sharesNum)
      ensures this.params == params && this.validators == validators && this.domain == domain
      ensures this.me == me && this.window == window
      ensures vss == map[] && state == Sharing(0, 0)
      ensures Valid()
    {
      this.params := params;
      this.validators := validators;
      vss := map[];
      this.domain := domain;
      state := Sharing(0, 0);
      this.me := me;
      this.window := window;
    }

    /**
     * The domain is the radix-2 domain for shares_num points; while sharing,
     * at least as many dealings were counted as transcripts are stored; once
     * dealt, some transcript is stored.
     */
    predicate Valid()
      reads this
    {
      |domain| == DomainSize(params.sharesNum)
      && (state.Sharing? ==> |vss| <= state.accumulatedShares)
      && (state.Dealt? || state.Success? ==> |vss| > 0)
    }

    /** The number of dealings after which the participant may aggregate. */
    function MinimumShares(): nat
      reads this
      requires params.securityThreshold <= params.sharesNum
    {
      params.sharesNum - params.securityThreshold
    }

    /** `final_key`: the sum of the stored transcripts' constant-term commitments. */
    function FinalKey(): G1
      reads this
      requires StoredHaveConstantTerm(vss)
    {
      StoredConstantSum(vss)
    }

    /** `increase_block`: one step of the block scheduler. */
    method IncreaseBlock() returns (r: PvssScheduler)
      modifies this
      ensures (state, r) == NextBlock(old(state), window, me in vss)
      ensures params == old(params) && validators == old(validators) && vss == old(vss) && domain == old(domain)
      ensures me == old(me) && window == old(window)
      ensures old(Valid()) ==> Valid()
    {
      match state
      case Sharing(acc, block) =>
        if me in vss {
          return Wait;
        }
        var b := block + 1;
        if window.0 + 1 == b {
          state := Sharing(acc, b);
          r := Issue;
        } else if window.1 < b {
          state := Sharing(acc, window.0 + 1);
          r := Issue;
        } else {
          state := Sharing(acc, b);
          r := Wait;
        }
      case _ =>
        r := Wait;
    }

    /**
     * `share`: deal a fresh transcript and offer it as a Deal message, which
     * only the Sharing and Dealt states allow. `s` and `draws` stand for the
     * random generator's output.
     */
    method Share(s: Scalar, draws: seq<Scalar>) returns (r: PvResult<Message>)
      requires params.securityThreshold <= params.sharesNum
      requires |draws| == params.sharesNum - params.securityThreshold + 1
      requires forall j :: 0 <= j < |validators| ==> validators[j].shareIndex < |domain|
      ensures r.Ok? <==> state.Sharing? || state.Dealt?
      ensures r.Err? ==> r.error == WrongStateToDeal
      ensures r.Ok? ==>
        r.value.Deal? && OldDealtTo(r.value.pvss, draws[0 := s], validators, domain)
        && r.value.pvss.coeffs[0] == G1Generator * s
    {
      var vss := NewTranscript(s, params.sharesNum, params.securityThreshold, validators, domain, draws);
      match state
      case Sharing(_, _) =>
        r := Ok(Deal(vss.value));
      case Dealt =>
        r := Ok(Deal(vss.value));
      case _ =>
        r := Err(WrongStateToDeal);
    }

    /**
     * `aggregate`: once dealt, the element-wise sum of the stored transcripts
     * together with the final key; otherwise an error.
     */
    method AggregateMessage() returns (r: PvResult<Message>)
      requires Valid()
      requires state.Dealt? ==> SameShape(ValuesInKeyOrder(vss)) && StoredHaveConstantTerm(vss)
      ensures r.Ok? <==> state.Dealt?
      ensures r.Err? ==> r.error == NotEnoughTranscripts
      ensures r.Ok? ==>
        r.value.Aggregate? && IsAggregateOf(r.value.aggregation.vss, ValuesInKeyOrder(vss))
        && r.value.aggregation.finalKey == FinalKey()
        && r.value.aggregation.vss.coeffs[0] == FinalKey()
    {
      if !state.Dealt? {
        return Err(NotEnoughTranscripts);
      }
      var finalKey := FinalKey();
      var agg := AggregateStored(vss);
      assert |agg.coeffs| == |ValuesInKeyOrder(vss)[0].coeffs| > 0;
      r := Ok(Aggregate(Aggregation(agg, finalKey)));
    }

    /** A Deal from this sender passes: a known address whose position has no stored transcript, and the optimistic check. */
    predicate DealAccepted(sender: TendermintValidator, t: Pvss)
      reads this
    {
      var pos := FindAddress(DkgAddresses(validators), sender.address);
      pos.Some? && pos.value !in vss && |t.coeffs| > 0 && VerifyOptimistic(t)
    }

    /** An Aggregate passes: constant terms match, enough transcripts are stored, and the announced key is the final key. */
    predicate AggregateAccepted(a: Aggregation)
      reads this
      requires StoredHaveConstantTerm(vss) && |a.vss.coeffs| > 0
      requires params.securityThreshold <= params.sharesNum
    {
      StoredConstantSum(vss) == a.vss.coeffs[0] && |vss| >= MinimumShares() && FinalKey() == a.finalKey
    }

    /** The inputs on which `verify_message` does not panic. */
    predicate VerifyDefined(sender: TendermintValidator, payload: Message)
      reads this
    {
      (payload.Deal? && (state.Sharing? || state.Dealt?) ==>
        var pos := FindAddress(DkgAddresses(validators), sender.address);
        pos.Some? && pos.value !in vss ==> |payload.pvss.coeffs| > 0)
      && (payload.Aggregate? && state.Dealt? ==>
        FullCheckDefined(payload.aggregation.vss, validators, domain) && |payload.aggregation.vss.coeffs| > 0
        && StoredHaveConstantTerm(vss) && params.securityThreshold <= params.sharesNum)
    }

    /**
     * `verify_message`: a Deal is checked while sharing or dealt, an Aggregate
     * once dealt; any other pairing of message and state is an error. Each
     * failing check has its own error, in the order of the source.
     */
    method VerifyMessage(sender: TendermintValidator, payload: Message) returns (r: PvResult<()>)
      requires Valid() && VerifyDefined(sender, payload)
      ensures !(payload.Deal? && (state.Sharing? || state.Dealt?)) && !(payload.Aggregate? && state.Dealt?) ==>
        r == Err(WrongStateToVerify)
      ensures payload.Deal? && (state.Sharing? || state.Dealt?) ==>
        (r.Ok? <==> DealAccepted(sender, payload.pvss))
        && (FindAddress(DkgAddresses(validators), sender.address).None? ==> r == Err(UnknownDealer))
        && (FindAddress(DkgAddresses(validators), sender.address).Some?
            && FindAddress(DkgAddresses(validators), sender.address).value in vss ==>
            r == Err(RepeatDealer(FindAddress(DkgAddresses(validators), sender.address).value)))
      ensures payload.Aggregate? && state.Dealt? ==>
        (r.Ok? <==> AggregateAccepted(payload.aggregation))
        && (StoredConstantSum(vss) != payload.aggregation.vss.coeffs[0] ==> r == Err(AggregationMismatch))
    {
      match payload
      case Deal(pvss) =>
        if !(state.Sharing? || state.Dealt?) {
          return Err(WrongStateToVerify);
        }
        var pos := FindAddress(DkgAddresses(validators), sender.address);
        if pos.None? {
          return Err(UnknownDealer);
        }
        if pos.value in vss {
          r := Err(RepeatDealer(pos.value));
        } else if !VerifyOptimistic(pvss) {
          r := Err(InvalidPvssTranscript);
        } else {
          r := Ok(());
        }
      case Aggregate(Aggregation(agg, finalKey)) =>
        if !state.Dealt? {
          return Err(WrongStateToVerify);
        }
        var minimumShares := params.sharesNum - params.securityThreshold;
        var verified := VerifyAggregationOld(agg, validators, domain, vss);
        if verified.Err? {
          return Err(verified.error);
        }
        if verified.value < minimumShares {
          r := Err(InsufficientVerifiedShares);
        } else if FinalKey() == finalKey {
          r := Ok(());
        } else {
          r := Err(WrongFinalKey);
        }
    }

    /** The inputs on which `apply_message` does not panic. */
    predicate ApplyDefined(payload: Message)
      reads this
    {
      (payload.Deal? && state.Sharing? ==> params.securityThreshold <= params.sharesNum)
      && (payload.Aggregate? && state.Dealt? ==> StoredHaveConstantTerm(vss))
    }

    /**
     * `apply_message`: a Deal stores the transcript under the sender's
     * position, without re-checking for a repeat dealer, and while sharing
     * counts it, moving to Dealt once enough are counted; an Aggregate moves
     * Dealt to Success with the final key. Any other pairing of message and
     * state, or an unknown sender, is an error and changes nothing.
     */
    method ApplyMessage(sender: TendermintValidator, payload: Message) returns (r: PvResult<()>)
      requires ApplyDefined(payload)
      modifies this
      ensures params == old(params) && validators == old(validators) && domain == old(domain)
      ensures me == old(me) && window == old(window)
      ensures r.Err? ==> state == old(state) && vss == old(vss)
      ensures !(payload.Deal? && (old(state).Sharing? || old(state).Dealt?)) && !(payload.Aggregate? && old(state).Dealt?) ==>
        r == Err(WrongStateToApply)
      ensures payload.Deal? && (old(state).Sharing? || old(state).Dealt?) ==>
        var pos := FindAddress(DkgAddresses(validators), sender.address);
        (pos.None? <==> r.Err?) && (pos.None? ==> r.error == UnknownDealer)
        && (pos.Some? ==>
              vss == old(vss)[pos.value := payload.pvss]
              && (old(state).Dealt? ==> state == Dealt)
              && (old(state).Sharing? ==>
                    var counted := old(state).accumulatedShares + 1;
                    state == if counted >= params.sharesNum - params.securityThreshold then Dealt
                             else Sharing(counted, old(state).block)))
      ensures payload.Aggregate? && old(state).Dealt? ==>
        r.Ok? && vss == old(vss) && state == Success(StoredConstantSum(vss))
      ensures old(Valid()) ==> Valid()
    {
      match payload
      case Deal(pvss) =>
        if !(state.Sharing? || state.Dealt?) {
          return Err(WrongStateToApply);
        }
        var pos := FindAddress(DkgAddresses(validators), sender.address);
        if pos.None? {
          return Err(UnknownDealer);
        }
        vss := vss[pos.value := pvss];
        if state.Sharing? {
          var counted := state.accumulatedShares + 1;
          if counted >= params.sharesNum - params.securityThreshold {
            state := Dealt;
          } else {
            state := Sharing(counted, state.block);
          }
        }
        r := Ok(());
      case Aggregate(_) =>
        if !state.Dealt? {
          return Err(WrongStateToApply);
        }
        state := Success(FinalKey());
        r := Ok(());
    }
  }

  /**
   * `PubliclyVerifiableDkg::new`: the domain must exist, then `me` must be in
   * the validator set by address; its position fixes the block window.
   * `domain` is the foreign domain constructor's result, which when present
   * is the radix-2 domain for shares_num points, and `makeValidators` the
   * conversion of the validator set.
   */
  method NewPvDkg(
    validatorSet: seq<TendermintValidator>, params: Params, me: TendermintValidator,
    domain: Option<seq<Scalar>>, makeValidators: seq<TendermintValidator> -> seq<DkgValidator>)
    returns (r: PvResult<PvDkg>)
    requires params.retryAfter > 0
    requires domain.Some? ==> |domain.value| == DomainSize(params.sharesNum)
    ensures domain.None? ==> r == Err(DomainUnavailable)
    ensures domain.Some? ==> (r.Err? <==> me.address !in ConsensusAddresses(validatorSet))
    ensures domain.Some? && r.Err? ==> r.error == NotInValidatorSet
    ensures r.Ok? ==>
      var position := FindAddress(ConsensusAddresses(validatorSet), me.address);
      fresh(r.value) && position.Some?
      && validatorSet[position.value].address == me.address
      && r.value.me == position.value && r.value.window == Window(position.value, params.retryAfter)
      && r.value.state == Sharing(0, 0) && r.value.vss == map[] && r.value.Valid()
      && r.value.params == params && r.value.validators == makeValidators(validatorSet)
      && r.value.domain == domain.value
  {
    if domain.None? {
      return Err(DomainUnavailable);
    }
    var position := FindAddress(ConsensusAddresses(validatorSet), me.address);
    if position.None? {
      return Err(NotInValidatorSet);
    }
    var dkg := new PvDkg(params, makeValidators(validatorSet), domain.value, position.value, Window(position.value, params.retryAfter));
    r := Ok(dkg);
  }

  /** A freshly dealt transcript from a known dealer with no stored transcript passes the Deal check. */
  lemma DealtTranscriptAccepted(dkg: PvDkg, sender: TendermintValidator, t: Pvss, phi: Poly)
    requires OldDealtTo(t, phi, dkg.validators, dkg.domain)
    requires sender.address in DkgAddresses(dkg.validators)
    requires FindAddress(DkgAddresses(dkg.validators), sender.address).value !in dkg.vss
    ensures dkg.DealAccepted(sender, t)
  {
    ScaleAt(G1Generator, phi, 0);
  }

  /**
   * The participant's own aggregation passes the Aggregate check once enough
   * transcripts are stored: its constant term and its announced key are both
   * the final key.
   */
  lemma OwnAggregationAccepted(dkg: PvDkg, a: Aggregation)
    requires |dkg.vss| > 0 && SameShape(ValuesInKeyOrder(dkg.vss)) && StoredHaveConstantTerm(dkg.vss)
    requires IsAggregateOf(a.vss, ValuesInKeyOrder(dkg.vss)) && a.finalKey == dkg.FinalKey()
    requires dkg.params.securityThreshold <= dkg.params.sharesNum && |dkg.vss| >= dkg.MinimumShares()
    ensures |a.vss.coeffs| > 0 && dkg.AggregateAccepted(a)
  {
    var ts := ValuesInKeyOrder(dkg.vss);
    assert |a.vss.coeffs| == |ts[0].coeffs| > 0;
  }
}
