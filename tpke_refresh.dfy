/**
 * Share recovery of the older tpke crate (tpke/src/refresh.rs): every
 * participant deals a random polynomial that vanishes at the point x_r being
 * recovered, every share is moved by the sum of those polynomials at its own
 * point, and the moved shares are interpolated at x_r.
 *
 * Because the sum of the dealt polynomials is zero at x_r, the recovered value
 * is the interpolation of the original shares at x_r
 * (`RecoveryInterpolatesOriginalShares`). Random coefficients are parameters.
 */
module TpkeRefresh {
  import opened Field
  import opened Polynomial
  import opened Lagrange
  import opened TpkeTypes
  import opened TdecCombine
  import opened NatSets

  /**
   * The contexts this file is written against: a public context holds a single
   * domain point, and a private context the generator h it scales updates by.
   */
  datatype PublicDecryptionContextSimple = PublicDecryptionContextSimple(domain: Scalar)

  datatype PrivateDecryptionContextSimple = PrivateDecryptionContextSimple(
    index: nat,
    privateKeyShare: PrivateKeyShare,
    publicDecryptionContexts: seq<PublicDecryptionContextSimple>,
    h: G2)

  /** sum_i c_i·x^i with a running power of x; zero for no coefficients. */
  method EvaluatePolynomial(polynomial: seq<Scalar>, x: Scalar) returns (result: Scalar)
    ensures result == Eval(polynomial, x)
  {
    result := 0.0;
    var xPower := 1.0;
    for i := 0 to |polynomial|
      invariant xPower == Pow(x, i)
      invariant result + xPower * Eval(polynomial[i..], x) == Eval(polynomial, x)
    {
      EvalSuffix(polynomial, i, x);
      var rest := Eval(polynomial[i + 1..], x);
      assert xPower * (polynomial[i] + x * rest) == polynomial[i] * xPower + (xPower * x) * rest;
      result := result + polynomial[i] * xPower;
      xPower := xPower * x;
    }
  }

  /**
   * The polynomial whose coefficients 1.. are the draws and whose constant
   * term is chosen so that it vanishes at x_r.
   */
  function ZeroedAt(xR: Scalar, draws: seq<Scalar>): (d: Poly)
    ensures |d| == |draws| + 1
    ensures d[1..] == draws
    ensures Eval(d, xR) == 0.0
  {
    var d := [0.0 - xR * Eval(draws, xR)] + draws;
    assert d[1..] == draws;
    d
  }

  /**
   * threshold-1 random coefficients, a zero inserted in front, then the front
   * overwritten with minus the value at x_r. A threshold of 0 underflows
   * `threshold - 1` and panics.
   */
  method MakeRandomPolynomial(threshold: nat, xR: Scalar, draws: seq<Scalar>) returns (dI: seq<Scalar>)
    requires threshold >= 1
    requires |draws| == threshold - 1
    ensures dI == ZeroedAt(xR, draws)
    ensures |dI| == threshold
  {
    dI := draws;
    dI := [0.0] + dI;
    assert dI[1..] == draws;
    var atXR := EvaluatePolynomial(dI, xR);
    assert atXR == xR * Eval(draws, xR);
    var dI0 := 0.0 - atXR;
    dI := dI[0 := dI0];
    assert dI == [dI0] + draws;
  }

  predicate HasDomainPoint(p: PrivateDecryptionContextSimple)
  {
    p.index < |p.publicDecryptionContexts|
  }

  /** The point x_j a participant reads from its own entry of its public list. */
  function DomainOf(p: PrivateDecryptionContextSimple): Scalar
    requires HasDomainPoint(p)
  {
    p.publicDecryptionContexts[p.index].domain
  }

  predicate AllHaveDomainPoints(participants: seq<PrivateDecryptionContextSimple>)
  {
    forall k :: 0 <= k < |participants| ==> HasDomainPoint(participants[k])
  }

  /** The indices of the first n participants. */
  function Indices(participants: seq<PrivateDecryptionContextSimple>, n: nat): set<nat>
    requires n <= |participants|
  {
    if n == 0 then {} else Indices(participants, n - 1) + {participants[n - 1].index}
  }

  /** The map {j: [d(x_j)]h_j} over the first n participants; a repeated index keeps the later entry. */
  function UpdatesFor(participants: seq<PrivateDecryptionContextSimple>, d: Poly, n: nat): (deltas: map<nat, G2>)
    requires n <= |participants| && AllHaveDomainPoints(participants)
  {
    if n == 0 then map[]
    else
      var p := participants[n - 1];
      UpdatesFor(participants, d, n - 1)[p.index := p.h * Eval(d, DomainOf(p))]
  }

  predicate DrawsFit(participants: seq<PrivateDecryptionContextSimple>, threshold: nat, draws: seq<seq<Scalar>>)
  {
    threshold >= 1 && |draws| == |participants| && forall k :: 0 <= k < |draws| ==> |draws[k]| == threshold - 1
  }

  function OuterUpdates(participants: seq<PrivateDecryptionContextSimple>, xR: Scalar, draws: seq<seq<Scalar>>, n: nat)
    : (deltas: map<nat, map<nat, G2>>)
    requires n <= |participants| && n <= |draws| && AllHaveDomainPoints(participants)
  {
    if n == 0 then map[]
    else
      OuterUpdates(participants, xR, draws, n - 1)[participants[n - 1].index :=
        UpdatesFor(participants, ZeroedAt(xR, draws[n - 1]), |participants|)]
  }

  /**
   * For each participant i (with its own draws, in participant order), the
   * map {j: [d_i(x_j)]h_j} over all participants j, d_i vanishing at x_r:
   * one inner map per participant index, each with an entry for every index.
   */
  function PrepareShareUpdates(
    participants: seq<PrivateDecryptionContextSimple>, xR: Scalar, threshold: nat, draws: seq<seq<Scalar>>)
    : (deltas: map<nat, map<nat, G2>>)
    requires DrawsFit(participants, threshold, draws) && AllHaveDomainPoints(participants)
  {
    OuterUpdates(participants, xR, draws, |participants|)
  }

  lemma {:induction false} UpdatesForKeys(participants: seq<PrivateDecryptionContextSimple>, d: Poly, n: nat)
    requires n <= |participants| && AllHaveDomainPoints(participants)
    ensures UpdatesFor(participants, d, n).Keys == Indices(participants, n)
  {
    if n != 0 {
      UpdatesForKeys(participants, d, n - 1);
    }
  }

  lemma {:induction false} OuterUpdatesKeys(
    participants: seq<PrivateDecryptionContextSimple>, xR: Scalar, draws: seq<seq<Scalar>>, n: nat)
    requires n <= |participants| && n <= |draws| && AllHaveDomainPoints(participants)
    ensures OuterUpdates(participants, xR, draws, n).Keys == Indices(participants, n)
    ensures forall i :: i in OuterUpdates(participants, xR, draws, n) ==>
      OuterUpdates(participants, xR, draws, n)[i].Keys == Indices(participants, |participants|)
  {
    if n != 0 {
      OuterUpdatesKeys(participants, xR, draws, n - 1);
      UpdatesForKeys(participants, ZeroedAt(xR, draws[n - 1]), |participants|);
    }
  }

  /**
   * The updates hold one inner map per participant index, and every inner map
   * has an entry for every participant index.
   */
  lemma PrepareShareUpdatesKeys(
    participants: seq<PrivateDecryptionContextSimple>, xR: Scalar, threshold: nat, draws: seq<seq<Scalar>>)
    requires DrawsFit(participants, threshold, draws) && AllHaveDomainPoints(participants)
    ensures PrepareShareUpdates(participants, xR, threshold, draws).Keys == Indices(participants, |participants|)
    ensures forall i :: i in PrepareShareUpdates(participants, xR, threshold, draws) ==>
      PrepareShareUpdates(participants, xR, threshold, draws)[i].Keys == Indices(participants, |participants|)
  {
    OuterUpdatesKeys(participants, xR, draws, |participants|);
  }

  /** The update dealer j made for participant i, zero if there is none. */
  function Entry(deltas: map<nat, map<nat, G2>>, j: nat, i: nat): G2
  {
    if j in deltas && i in deltas[j] then deltas[j][i] else 0.0
  }

  /** sum_{j in dealers} deltas[j][i], the order of the dealers being immaterial. */
  ghost function ColumnSum(deltas: map<nat, map<nat, G2>>, dealers: set<nat>, i: nat): G2
    decreases dealers
  {
    if dealers == {} then 0.0 else var j :| j in dealers; Entry(deltas, j, i) + ColumnSum(deltas, dealers - {j}, i)
  }

  /** Any dealer can be taken out of the sum first. */
  lemma {:induction false} ColumnSumRemove(deltas: map<nat, map<nat, G2>>, dealers: set<nat>, i: nat, j: nat)
    requires j in dealers
    ensures ColumnSum(deltas, dealers, i) == Entry(deltas, j, i) + ColumnSum(deltas, dealers - {j}, i)
    decreases dealers
  {
    var k :| k in dealers && ColumnSum(deltas, dealers, i) == Entry(deltas, k, i) + ColumnSum(deltas, dealers - {k}, i);
    if k != j {
      ColumnSumRemove(deltas, dealers - {k}, i, j);
      ColumnSumRemove(deltas, dealers - {j}, i, k);
      assert dealers - {k} - {j} == dealers - {j} - {k};
    }
  }

  predicate CanUpdate(participants: seq<PrivateDecryptionContextSimple>, deltas: map<nat, map<nat, G2>>)
  {
    (forall k :: 0 <= k < |participants| ==> |participants[k].privateKeyShare.privateKeyShares| > 0)
    && forall k, j :: 0 <= k < |participants| && j in deltas ==> participants[k].index in deltas[j]
  }

  /** y_i plus the update of every dealer to i. */
  ghost function UpdatedShares(participants: seq<PrivateDecryptionContextSimple>, deltas: map<nat, map<nat, G2>>)
    : (ys: seq<G2>)
    requires CanUpdate(participants, deltas)
    ensures |ys| == |participants|
  {
    seq(|participants|, k requires 0 <= k < |participants| && CanUpdate(participants, deltas) =>
      participants[k].privateKeyShare.privateKeyShares[0] + ColumnSum(deltas, deltas.Keys, participants[k].index))
  }

  /**
   * Each participant's first key share plus deltas[j][i] for every dealer j,
   * visiting the dealers in whatever order the map yields them; a dealer with
   * no update for i panics, so that is a precondition.
   */
  method UpdateDecryptionShares(participants: seq<PrivateDecryptionContextSimple>, deltas: map<nat, map<nat, G2>>)
    returns (newShares: seq<G2>)
    requires CanUpdate(participants, deltas)
    ensures newShares == UpdatedShares(participants, deltas)
  {
    newShares := [];
    for k := 0 to |participants|
      invariant newShares == UpdatedShares(participants, deltas)[..k]
    {
      var p := participants[k];
      var i := p.index;
      var newY := p.privateKeyShare.privateKeyShares[0];
      var remaining := deltas.Keys;
      ghost var visited: set<nat> := {};
      while remaining != {}
        invariant remaining + visited == deltas.Keys && remaining !! visited
        invariant newY == p.privateKeyShare.privateKeyShares[0] + ColumnSum(deltas, visited, i)
        decreases remaining
      {
        var j :| j in remaining;
        newY := newY + deltas[j][i];
        ColumnSumRemove(deltas, visited + {j}, i, j);
        assert (visited + {j}) - {j} == visited;
        remaining := remaining - {j};
        visited := visited + {j};
      }
      assert visited == deltas.Keys;
      newShares := newShares + [newY];
    }
  }

  /** The points x_j of a participant's public list, in list order. */
  function SharesX(p: PrivateDecryptionContextSimple): (xs: seq<Scalar>)
    ensures |xs| == |p.publicDecryptionContexts|
  {
    seq(|p.publicDecryptionContexts|, j requires 0 <= j < |p.publicDecryptionContexts| =>
      p.publicDecryptionContexts[j].domain)
  }

  predicate CanRecover(participants: seq<PrivateDecryptionContextSimple>, threshold: nat, draws: seq<seq<Scalar>>)
  {
    |participants| > 0
    && DrawsFit(participants, threshold, draws) && AllHaveDomainPoints(participants)
    && (forall k :: 0 <= k < |participants| ==> |participants[k].privateKeyShare.privateKeyShares| > 0)
    && |participants[0].publicDecryptionContexts| == |participants|
  }

  lemma UpdatesReachEveryone(participants: seq<PrivateDecryptionContextSimple>, xR: Scalar, threshold: nat, draws: seq<seq<Scalar>>)
    requires CanRecover(participants, threshold, draws)
    ensures CanUpdate(participants, PrepareShareUpdates(participants, xR, threshold, draws))
  {
    var deltas := PrepareShareUpdates(participants, xR, threshold, draws);
    PrepareShareUpdatesKeys(participants, xR, threshold, draws);
    forall k, j | 0 <= k < |participants| && j in deltas
      ensures participants[k].index in deltas[j]
    {
      IndexInIndices(participants, k, |participants|);
    }
  }

  lemma {:induction false} IndexInIndices(participants: seq<PrivateDecryptionContextSimple>, k: nat, n: nat)
    requires k < n <= |participants|
    ensures participants[k].index in Indices(participants, n)
  {
    if k < n - 1 {
      IndexInIndices(participants, k, n - 1);
    }
  }

  /**
   * Deal the updates, apply them, and interpolate the moved shares at x_r over
   * the points of the first participant's public list; `zip_eq` panics unless
   * there are as many points as participants.
   */
  method RecoverShareAtPoint(
    otherParticipants: seq<PrivateDecryptionContextSimple>, threshold: nat, xR: Scalar, draws: seq<seq<Scalar>>)
    returns (yR: G2)
    requires CanRecover(otherParticipants, threshold, draws)
    ensures CanUpdate(otherParticipants, PrepareShareUpdates(otherParticipants, xR, threshold, draws))
    ensures yR == Dot(UpdatedShares(otherParticipants, PrepareShareUpdates(otherParticipants, xR, threshold, draws)),
                      Coeffs(SharesX(otherParticipants[0]), xR))
  {
    var shareUpdates := PrepareShareUpdates(otherParticipants, xR, threshold, draws);
    UpdatesReachEveryone(otherParticipants, xR, threshold, draws);
    var newSharesY := UpdateDecryptionShares(otherParticipants, shareUpdates);
    var sharesX := SharesX(otherParticipants[0]);
    var lagrange := LagrangeBasisAt(sharesX, xR);
    yR := FoldProducts(newSharesY, lagrange);
  }

  /** The fold of y_j·l_j over the zip of two equally long lists, from zero. */
  method FoldProducts(ys: seq<G2>, lagrange: seq<Scalar>) returns (acc: G2)
    requires |ys| == |lagrange|
    ensures acc == Dot(ys, lagrange)
  {
    acc := 0.0;
    for j := 0 to |ys|
      invariant acc == DotPrefix(ys, lagrange, j)
    {
      acc := acc + ys[j] * lagrange[j];
    }
  }

  /** sum_{j < n} deltas[j][i]. */
  function ColumnPrefix(deltas: map<nat, map<nat, G2>>, n: nat, i: nat): G2
  {
    if n == 0 then 0.0 else ColumnPrefix(deltas, n - 1, i) + Entry(deltas, n - 1, i)
  }

  lemma {:induction false} ColumnSumOfRange(deltas: map<nat, map<nat, G2>>, n: nat, i: nat)
    ensures ColumnSum(deltas, RangeSet(n), i) == ColumnPrefix(deltas, n, i)
  {
    if n != 0 {
      ColumnSumRemove(deltas, RangeSet(n), i, n - 1);
      assert RangeSet(n) - {n - 1} == RangeSet(n - 1);
      ColumnSumOfRange(deltas, n - 1, i);
    }
  }

  /** When participant k sits at position k, the first n indices are 0..n-1. */
  lemma {:induction false} IndicesAtPositions(participants: seq<PrivateDecryptionContextSimple>, n: nat)
    requires n <= |participants|
    requires forall k :: 0 <= k < |participants| ==> participants[k].index == k
    ensures Indices(participants, n) == RangeSet(n)
  {
    if n != 0 {
      IndicesAtPositions(participants, n - 1);
    }
  }

  /** An entry not overwritten by a later participant keeps its value. */
  lemma {:induction false} UpdatesForEntry(participants: seq<PrivateDecryptionContextSimple>, d: Poly, n: nat, k: nat)
    requires k < n <= |participants| && AllHaveDomainPoints(participants)
    requires forall k' :: k < k' < n ==> participants[k'].index != participants[k].index
    ensures participants[k].index in UpdatesFor(participants, d, n)
    ensures UpdatesFor(participants, d, n)[participants[k].index] == participants[k].h * Eval(d, DomainOf(participants[k]))
  {
    if k < n - 1 {
      UpdatesForEntry(participants, d, n - 1, k);
    }
  }

  lemma {:induction false} OuterUpdatesEntry(
    participants: seq<PrivateDecryptionContextSimple>, xR: Scalar, draws: seq<seq<Scalar>>, n: nat, k: nat)
    requires k < n <= |participants| && n <= |draws| && AllHaveDomainPoints(participants)
    requires forall k' :: k < k' < n ==> participants[k'].index != participants[k].index
    ensures participants[k].index in OuterUpdates(participants, xR, draws, n)
    ensures OuterUpdates(participants, xR, draws, n)[participants[k].index]
            == UpdatesFor(participants, ZeroedAt(xR, draws[k]), |participants|)
  {
    if k < n - 1 {
      OuterUpdatesEntry(participants, xR, draws, n - 1, k);
    }
  }

  /** The sum of the first n dealt polynomials. */
  function SumPolys(ds: seq<Poly>, n: nat): Poly
    requires n <= |ds|
  {
    if n == 0 then [] else Add(SumPolys(ds, n - 1), ds[n - 1])
  }

  /** d_0(x) + ... + d_{n-1}(x). */
  function DealtSum(ds: seq<Poly>, n: nat, x: Scalar): Scalar
    requires n <= |ds|
  {
    if n == 0 then 0.0 else DealtSum(ds, n - 1, x) + Eval(ds[n - 1], x)
  }

  lemma {:induction false} SumPolysWidth(ds: seq<Poly>, n: nat, width: nat)
    requires n <= |ds|
    requires forall j :: 0 <= j < |ds| ==> |ds[j]| == width
    ensures |SumPolys(ds, n)| <= width
  {
    if n != 0 {
      SumPolysWidth(ds, n - 1, width);
    }
  }

  lemma {:induction false} SumPolysEval(ds: seq<Poly>, n: nat, x: Scalar)
    requires n <= |ds|
    ensures Eval(SumPolys(ds, n), x) == DealtSum(ds, n, x)
  {
    if n != 0 {
      SumPolysEval(ds, n - 1, x);
      EvalAdd(SumPolys(ds, n - 1), ds[n - 1], x);
    }
  }

  /** Polynomials that all vanish at x sum to zero there. */
  lemma {:induction false} DealtSumZero(ds: seq<Poly>, n: nat, x: Scalar)
    requires n <= |ds|
    requires forall j :: 0 <= j < n ==> Eval(ds[j], x) == 0.0
    ensures DealtSum(ds, n, x) == 0.0
  {
    if n != 0 {
      DealtSumZero(ds, n - 1, x);
    }
  }

  /** The hypotheses under which recovery reproduces the interpolation of the original shares. */
  predicate WellFormedCommittee(participants: seq<PrivateDecryptionContextSimple>, threshold: nat, draws: seq<seq<Scalar>>)
  {
    CanRecover(participants, threshold, draws)
    && threshold <= |participants|
    && (forall k :: 0 <= k < |participants| ==> participants[k].index == k)
    && (forall k :: 0 <= k < |participants| ==>
          participants[k].publicDecryptionContexts == participants[0].publicDecryptionContexts
          && participants[k].h == participants[0].h)
    && Distinct(SharesX(participants[0]))
  }

  function OriginalShares(participants: seq<PrivateDecryptionContextSimple>): (ys: seq<G2>)
    requires forall k :: 0 <= k < |participants| ==> |participants[k].privateKeyShare.privateKeyShares| > 0
    ensures |ys| == |participants|
  {
    seq(|participants|, k requires 0 <= k < |participants|
                                  && |participants[k].privateKeyShare.privateKeyShares| > 0 =>
      participants[k].privateKeyShare.privateKeyShares[0])
  }

  /** The polynomials dealt from each participant's draws, in participant order. */
  function Dealt(xR: Scalar, draws: seq<seq<Scalar>>): (ds: seq<Poly>)
    ensures |ds| == |draws|
  {
    if |draws| == 0 then [] else Dealt(xR, draws[..|draws| - 1]) + [ZeroedAt(xR, draws[|draws| - 1])]
  }

  lemma {:induction false} DealtElement(xR: Scalar, draws: seq<seq<Scalar>>, j: nat)
    requires j < |draws|
    ensures Dealt(xR, draws)[j] == ZeroedAt(xR, draws[j])
  {
    if j < |draws| - 1 {
      DealtElement(xR, draws[..|draws| - 1], j);
    }
  }

  /** Under the committee hypotheses, dealer j's update to participant k is [d_j(x_k)]h. */
  lemma DeltaEntry(
    participants: seq<PrivateDecryptionContextSimple>, xR: Scalar, threshold: nat, draws: seq<seq<Scalar>>, j: nat, k: nat)
    requires WellFormedCommittee(participants, threshold, draws)
    requires j < |participants| && k < |participants|
    ensures Entry(PrepareShareUpdates(participants, xR, threshold, draws), j, k)
            == participants[0].h * Eval(Dealt(xR, draws)[j], SharesX(participants[0])[k])
  {
    DealtEntry(participants, xR, threshold, draws, j, k);
    SharedPointAndGenerator(participants, threshold, draws, k);
    EntryClose(Entry(PrepareShareUpdates(participants, xR, threshold, draws), j, k),
               participants[k].h, participants[0].h,
               Eval(Dealt(xR, draws)[j], DomainOf(participants[k])),
               Eval(Dealt(xR, draws)[j], SharesX(participants[0])[k]));
  }

  /** The stored entry, with dealer j's polynomial read from the dealt list. */
  lemma DealtEntry(
    participants: seq<PrivateDecryptionContextSimple>, xR: Scalar, threshold: nat, draws: seq<seq<Scalar>>, j: nat, k: nat)
    requires WellFormedCommittee(participants, threshold, draws)
    requires j < |participants| && k < |participants|
    ensures Entry(PrepareShareUpdates(participants, xR, threshold, draws), j, k)
            == participants[k].h * Eval(Dealt(xR, draws)[j], DomainOf(participants[k]))
  {
    StoredEntry(participants, xR, threshold, draws, j, k);
    DealtElement(xR, draws, j);
  }

  /** In a well-formed committee participant k reads x_k from the shared list and uses the shared h. */
  lemma SharedPointAndGenerator(participants: seq<PrivateDecryptionContextSimple>, threshold: nat, draws: seq<seq<Scalar>>, k: nat)
    requires WellFormedCommittee(participants, threshold, draws)
    requires k < |participants|
    ensures DomainOf(participants[k]) == SharesX(participants[0])[k]
    ensures participants[k].h == participants[0].h
  {
  }

  /** On plain values: an entry h·v equals h0·v0 when h = h0 and v = v0. */
  lemma EntryClose(e: G2, h: G2, h0: G2, v: Scalar, v0: Scalar)
    requires e == h * v && h == h0 && v == v0
    ensures e == h0 * v0
  {
  }

  /** The entry stored for dealer j and participant k, as the maps are built. */
  lemma StoredEntry(
    participants: seq<PrivateDecryptionContextSimple>, xR: Scalar, threshold: nat, draws: seq<seq<Scalar>>, j: nat, k: nat)
    requires WellFormedCommittee(participants, threshold, draws)
    requires j < |participants| && k < |participants|
    ensures Entry(PrepareShareUpdates(participants, xR, threshold, draws), j, k)
            == participants[k].h * Eval(ZeroedAt(xR, draws[j]), DomainOf(participants[k]))
  {
    var n := |participants|;
    assert participants[j].index == j && participants[k].index == k;
    OuterUpdatesEntry(participants, xR, draws, n, j);
    UpdatesForEntry(participants, ZeroedAt(xR, draws[j]), n, k);
  }

  /** The updates to participant k sum to the scaled sum polynomial at x_k. */
  lemma TotalUpdate(
    participants: seq<PrivateDecryptionContextSimple>, xR: Scalar, threshold: nat, draws: seq<seq<Scalar>>, k: nat)
    requires WellFormedCommittee(participants, threshold, draws)
    requires k < |participants|
    ensures ColumnSum(PrepareShareUpdates(participants, xR, threshold, draws),
                      PrepareShareUpdates(participants, xR, threshold, draws).Keys, k)
            == Eval(Scale(participants[0].h, SumPolys(Dealt(xR, draws), |participants|)), SharesX(participants[0])[k])
  {
    var ds := Dealt(xR, draws);
    var h0 := participants[0].h;
    var x := SharesX(participants[0])[k];
    ColumnSumIsPrefix(participants, xR, threshold, draws, k);
    ColumnOfDealt(participants, xR, threshold, draws, k);
    ScaledDealtSum(ds, |participants|, x, h0);
  }

  /** The updates to participant k, in dealer order, sum to h times the dealt values at x_k. */
  lemma ColumnOfDealt(
    participants: seq<PrivateDecryptionContextSimple>, xR: Scalar, threshold: nat, draws: seq<seq<Scalar>>, k: nat)
    requires WellFormedCommittee(participants, threshold, draws)
    requires k < |participants|
    ensures ColumnPrefix(PrepareShareUpdates(participants, xR, threshold, draws), |participants|, k)
            == participants[0].h * DealtSum(Dealt(xR, draws), |participants|, SharesX(participants[0])[k])
  {
    var deltas := PrepareShareUpdates(participants, xR, threshold, draws);
    DeltaColumn(participants, xR, threshold, draws, k);
    ColumnPrefixScaled(deltas, Dealt(xR, draws), |participants|, k, participants[0].h, SharesX(participants[0])[k]);
  }

  /** The dealers are exactly the participants' positions, so the unordered sum is the sum in position order. */
  lemma ColumnSumIsPrefix(
    participants: seq<PrivateDecryptionContextSimple>, xR: Scalar, threshold: nat, draws: seq<seq<Scalar>>, k: nat)
    requires WellFormedCommittee(participants, threshold, draws)
    ensures ColumnSum(PrepareShareUpdates(participants, xR, threshold, draws),
                      PrepareShareUpdates(participants, xR, threshold, draws).Keys, k)
            == ColumnPrefix(PrepareShareUpdates(participants, xR, threshold, draws), |participants|, k)
  {
    var n := |participants|;
    var deltas := PrepareShareUpdates(participants, xR, threshold, draws);
    IndicesAtPositions(participants, n);
    PrepareShareUpdatesKeys(participants, xR, threshold, draws);
    assert deltas.Keys == RangeSet(n);
    ColumnSumOfRange(deltas, n, k);
  }

  /** Column entries that are h times the dealt values at x sum to h times the dealt sum. */
  predicate ColumnIsScaled(deltas: map<nat, map<nat, G2>>, ds: seq<Poly>, m: nat, i: nat, h0: G2, x: Scalar)
    requires m <= |ds|
  {
    forall j :: 0 <= j < m ==> Entry(deltas, j, i) == h0 * Eval(ds[j], x)
  }

  lemma {:induction false} ColumnPrefixScaled(deltas: map<nat, map<nat, G2>>, ds: seq<Poly>, m: nat, i: nat, h0: G2, x: Scalar)
    requires m <= |ds|
    requires ColumnIsScaled(deltas, ds, m, i, h0, x)
    ensures ColumnPrefix(deltas, m, i) == h0 * DealtSum(ds, m, x)
  {
    if m != 0 {
      ColumnPrefixScaled(deltas, ds, m - 1, i, h0, x);
    }
  }

  /** h times the sum of the dealt values at x is the scaled sum polynomial at x. */
  lemma ScaledDealtSum(ds: seq<Poly>, n: nat, x: Scalar, h0: G2)
    requires n <= |ds|
    ensures h0 * DealtSum(ds, n, x) == Eval(Scale(h0, SumPolys(ds, n)), x)
  {
    SumPolysEval(ds, n, x);
    EvalScale(h0, SumPolys(ds, n), x);
  }

  /** Every dealer's update to participant k is h times its polynomial at x_k. */
  lemma DeltaColumn(
    participants: seq<PrivateDecryptionContextSimple>, xR: Scalar, threshold: nat, draws: seq<seq<Scalar>>, k: nat)
    requires WellFormedCommittee(participants, threshold, draws)
    requires k < |participants|
    ensures ColumnIsScaled(PrepareShareUpdates(participants, xR, threshold, draws), Dealt(xR, draws), |participants|, k,
                           participants[0].h, SharesX(participants[0])[k])
  {
    var deltas := PrepareShareUpdates(participants, xR, threshold, draws);
    var ds := Dealt(xR, draws);
    var h0 := participants[0].h;
    var x := SharesX(participants[0])[k];
    forall j | 0 <= j < |participants|
      ensures Entry(deltas, j, k) == h0 * Eval(ds[j], x)
    {
      DeltaEntry(participants, xR, threshold, draws, j, k);
    }
  }


  /** Each moved share is y_k + [P(x_k)]h for the one polynomial P = sum of the dealt ones. */
  lemma UpdatedShareIsShifted(
    participants: seq<PrivateDecryptionContextSimple>, xR: Scalar, threshold: nat, draws: seq<seq<Scalar>>, k: nat)
    requires WellFormedCommittee(participants, threshold, draws)
    requires k < |participants|
    ensures CanUpdate(participants, PrepareShareUpdates(participants, xR, threshold, draws))
    ensures UpdatedShares(participants, PrepareShareUpdates(participants, xR, threshold, draws))[k]
            == OriginalShares(participants)[k]
               + Eval(Scale(participants[0].h, SumPolys(Dealt(xR, draws), |participants|)), SharesX(participants[0])[k])
  {
    UpdatesReachEveryone(participants, xR, threshold, draws);
    var deltas := PrepareShareUpdates(participants, xR, threshold, draws);
    var ds := Dealt(xR, draws);
    var x := SharesX(participants[0])[k];
    var h0 := participants[0].h;
    var total := ColumnSum(deltas, deltas.Keys, k);
    assert UpdatedShares(participants, deltas)[k] == OriginalShares(participants)[k] + total by {
      assert participants[k].index == k;
    }
    TotalUpdate(participants, xR, threshold, draws, k);
  }


  /** The summed polynomial still vanishes at x_r and has at most `threshold` coefficients. */
  lemma DealtSumVanishes(xR: Scalar, draws: seq<seq<Scalar>>, threshold: nat, h0: G2)
    requires threshold >= 1 && forall k :: 0 <= k < |draws| ==> |draws[k]| == threshold - 1
    ensures |Scale(h0, SumPolys(Dealt(xR, draws), |draws|))| <= threshold
    ensures Eval(Scale(h0, SumPolys(Dealt(xR, draws), |draws|)), xR) == 0.0
  {
    var ds := Dealt(xR, draws);
    forall j | 0 <= j < |ds|
      ensures |ds[j]| == threshold && Eval(ds[j], xR) == 0.0
    {
      DealtElement(xR, draws, j);
    }
    SumPolysWidth(ds, |draws|, threshold);
    SumPolysEval(ds, |draws|, xR);
    DealtSumZero(ds, |draws|, xR);
    EvalScale(h0, SumPolys(ds, |draws|), xR);
  }

  /**
   * Recovery: with participant k at position k, one shared list of distinct
   * points, one shared h and threshold at most the number of participants,
   * the recovered value is the interpolation of the ORIGINAL shares at x_r.
   */
  lemma RecoveryInterpolatesOriginalShares(
    participants: seq<PrivateDecryptionContextSimple>, xR: Scalar, threshold: nat, draws: seq<seq<Scalar>>)
    requires WellFormedCommittee(participants, threshold, draws)
    ensures CanUpdate(participants, PrepareShareUpdates(participants, xR, threshold, draws))
    ensures Dot(UpdatedShares(participants, PrepareShareUpdates(participants, xR, threshold, draws)),
                Coeffs(SharesX(participants[0]), xR))
            == Interpolate(SharesX(participants[0]), OriginalShares(participants), xR)
  {
    var n := |participants|;
    var deltas := PrepareShareUpdates(participants, xR, threshold, draws);
    UpdatesReachEveryone(participants, xR, threshold, draws);
    var xs := SharesX(participants[0]);
    var ys := OriginalShares(participants);
    var p := Scale(participants[0].h, SumPolys(Dealt(xR, draws), n));
    var shifts := EvalAll(p, xs);
    var updated := UpdatedShares(participants, deltas);
    var lagrange := Coeffs(xs, xR);
    forall k | 0 <= k < n
      ensures updated[k] == ys[k] + shifts[k]
    {
      UpdatedShareIsShifted(participants, xR, threshold, draws, k);
    }
    assert updated == seq(n, i requires 0 <= i < n => ys[i] + shifts[i]);
    DotPrefixAdd(ys, shifts, lagrange, n);
    DealtSumVanishes(xR, draws, threshold, participants[0].h);
    InterpolationExact(xs, p, xR);
  }
}
