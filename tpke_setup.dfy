/**
 * The trusted dealer of the older tpke crate (tpke/src/lib.rs): it picks a
 * polynomial f of degree threshold-1, hands participant i the share f(ω^i) at
 * the i-th power of the domain generator ω, and assembles one private and one
 * public decryption context per participant. Also the framing of the input to
 * the ciphertext tag hash, and the vector of random scalars.
 *
 * The FFT that evaluates f over the domain is taken by its contract (entry j is
 * f(ω^j)); the random polynomial, the blinding factors b_i and the random
 * scalars are parameters; `blind` followed by `multiply_by_omega_inv`
 * (tpke/src/key_share.rs, not part of this model) is the parameter `blind`.
 */
module TpkeSetup {
  import opened Field
  import opened Bytes
  import opened Polynomial
  import opened Lagrange
  import opened TpkeTypes
  import opened TpkeCombine

  /** ω^0, ω^1, ..., ω^{n-1}. */
  function Powers(w: Scalar, n: nat): (ps: seq<Scalar>)
    ensures |ps| == n
  {
    seq(n, i requires 0 <= i => Pow(w, i))
  }

  /**
   * The loop that pushes the running power of the group generator and of its
   * inverse, `shares_num` times each.
   */
  method DomainPoints(sharesNum: nat, groupGen: Scalar, groupGenInv: Scalar)
    returns (domainPoints: seq<Scalar>, domainPointsInv: seq<Scalar>)
    ensures domainPoints == Powers(groupGen, sharesNum)
    ensures domainPointsInv == Powers(groupGenInv, sharesNum)
  {
    domainPoints := [];
    var point := 1.0;
    domainPointsInv := [];
    var pointInv := 1.0;
    for i := 0 to sharesNum
      invariant domainPoints == Powers(groupGen, i) && point == Pow(groupGen, i)
      invariant domainPointsInv == Powers(groupGenInv, i) && pointInv == Pow(groupGenInv, i)
    {
      domainPoints := domainPoints + [point];
      point := point * groupGen;
      domainPointsInv := domainPointsInv + [pointInv];
      pointInv := pointInv * groupGenInv;
    }
  }

  /** When ω·ω^{-1} = 1, the i-th inverse point is the inverse of the i-th point. */
  lemma {:induction false} PowersCancel(w: Scalar, wInv: Scalar, i: nat)
    requires w * wInv == 1.0
    ensures Pow(w, i) * Pow(wInv, i) == 1.0
  {
    if i != 0 {
      PowersCancel(w, wInv, i - 1);
      var p, q := Pow(w, i - 1), Pow(wInv, i - 1);
      assert (p * w) * (q * wInv) == (p * q) * (w * wInv);
    }
  }

  /** prod_{m < n} x_m. */
  function ProductPrefix(xs: seq<Scalar>, n: nat): Scalar
    requires n <= |xs|
  {
    if n == 0 then 1.0 else ProductPrefix(xs, n - 1) * xs[n - 1]
  }

  /** The product of a context's domain points, negated when their count is odd. */
  function LagrangeN0(domain: seq<Scalar>): Scalar
  {
    var n0 := ProductPrefix(domain, |domain|);
    if |domain| % 2 == 1 then -n0 else n0
  }

  lemma {:induction false} NegatedProductSign(xs: seq<Scalar>, n: nat)
    requires n <= |xs|
    ensures NegatedProduct(xs, n) == if n % 2 == 1 then -ProductPrefix(xs, n) else ProductPrefix(xs, n)
  {
    if n != 0 {
      NegatedProductSign(xs, n - 1);
      var p := ProductPrefix(xs, n - 1);
      assert ProductPrefix(xs, n) == p * xs[n - 1];
      assert -p * -xs[n - 1] == p * xs[n - 1];
    }
  }

  /** `lagrange_n_0` is prod_m (-x_m), the value prepare_combine multiplies into n_0. */
  lemma LagrangeN0IsNegatedProduct(domain: seq<Scalar>)
    ensures LagrangeN0(domain) == NegatedProduct(domain, |domain|)
  {
    NegatedProductSign(domain, |domain|);
  }

  /** The foreign blinding step: blind by b, then multiply by the inverse domain points. */
  type Blinder = (PrivateKeyShare, Scalar, seq<Scalar>) -> BlindedKeyShares

  /** The private key share [f(ω^i)]H of participant i. */
  function KeyShareAt(thresholdPoly: Poly, groupGen: Scalar, i: nat): PrivateKeyShare
  {
    PrivateKeyShare([G2Generator * Eval(thresholdPoly, Pow(groupGen, i))])
  }

  /** The public context of participant i as the dealer assembles it. */
  function PublicContextAt(
    thresholdPoly: Poly, groupGen: Scalar, groupGenInv: Scalar, b: Scalar, blind: Blinder, i: nat)
    : (c: PublicDecryptionContext)
    ensures c.domain == [Pow(groupGen, i)]
    ensures c.lagrangeN0 == -Pow(groupGen, i)
  {
    var domain := [Pow(groupGen, i)];
    assert ProductPrefix(domain, 1) == Pow(groupGen, i);
    PublicDecryptionContext(
      domain,
      PublicKeyShares([G1Generator * Eval(thresholdPoly, Pow(groupGen, i))]),
      blind(KeyShareAt(thresholdPoly, groupGen, i), b, [Pow(groupGenInv, i)]),
      LagrangeN0(domain))
  }

  /** One public context per blinding factor, in participant order. */
  function PublicContexts(thresholdPoly: Poly, groupGen: Scalar, groupGenInv: Scalar, bs: seq<Scalar>, blind: Blinder)
    : (cs: seq<PublicDecryptionContext>)
    ensures |cs| == |bs|
  {
    seq(|bs|, i requires 0 <= i < |bs| => PublicContextAt(thresholdPoly, groupGen, groupGenInv, bs[i], blind, i))
  }

  /** The private context of participant i before the public list is attached. */
  function BarePrivateContext(thresholdPoly: Poly, groupGen: Scalar, bs: seq<Scalar>, i: nat): PrivateDecryptionContext
    requires i < |bs| && bs[i] != 0.0
  {
    PrivateDecryptionContext(
      i, bs[i], Inverse(bs[i]), KeyShareAt(thresholdPoly, groupGen, i), [],
      G1Generator, -G1Generator, -G2Generator)
  }

  /** The single private key share of each context, in order. */
  function KeyShareValues(privateContexts: seq<PrivateDecryptionContext>): (zs: seq<G2>)
    requires forall k :: 0 <= k < |privateContexts| ==> |privateContexts[k].privateKeyShare.privateKeyShares| > 0
    ensures |zs| == |privateContexts|
  {
    seq(|privateContexts|, k requires 0 <= k < |privateContexts|
                                     && |privateContexts[k].privateKeyShare.privateKeyShares| > 0 =>
      privateContexts[k].privateKeyShare.privateKeyShares[0])
  }

  /**
   * The dealer (both `setup` and `setup_simple`, whose private contexts differ
   * only in precomputation fields this model does not carry). Returns the
   * public key [f(0)]G, the private key [f(0)]H and one context per share:
   * context i has index i, its own b_i and b_i^{-1}, the share [f(ω^i)]H, and
   * the full list of public contexts. `shares_num < threshold` panics, and so do
   * `threshold - 1` below zero and a zero b_i (no inverse).
   */
  method Setup(
    threshold: nat, sharesNum: nat, thresholdPoly: Poly, groupGen: Scalar, groupGenInv: Scalar,
    bs: seq<Scalar>, blind: Blinder)
    returns (pubkey: G1, privkey: G2, privateContexts: seq<PrivateDecryptionContext>)
    requires sharesNum >= threshold && threshold >= 1
    requires |thresholdPoly| == threshold
    requires |bs| == sharesNum && forall i :: 0 <= i < |bs| ==> bs[i] != 0.0
    ensures pubkey == G1Generator * Eval(thresholdPoly, 0.0) && privkey == G2Generator * Eval(thresholdPoly, 0.0)
    ensures |privateContexts| == sharesNum
    ensures forall i :: 0 <= i < sharesNum ==>
      privateContexts[i] == BarePrivateContext(thresholdPoly, groupGen, bs, i)
        .(publicDecryptionContexts := PublicContexts(thresholdPoly, groupGen, groupGenInv, bs, blind))
    ensures forall i :: 0 <= i < sharesNum ==>
      privateContexts[i].index == i && privateContexts[i].bInv * privateContexts[i].b == 1.0
    ensures forall i :: 0 <= i < sharesNum ==> HasOwnPoint(privateContexts[i])
    ensures forall i :: 0 <= i < sharesNum ==> |privateContexts[i].privateKeyShare.privateKeyShares| == 1
    ensures OwnDomainPoints(privateContexts) == Powers(groupGen, sharesNum)
    ensures KeyShareValues(privateContexts) == EvalAll(thresholdPoly, Powers(groupGen, sharesNum))
  {
    var g, h := G1Generator, G2Generator;
    var domainPoints, domainPointsInv := DomainPoints(sharesNum, groupGen, groupGenInv);
    // the FFT over the domain: evals[j] = f(ω^j)
    var evals := EvalAll(thresholdPoly, domainPoints);
    var pubkeyShares := seq(|evals|, j requires 0 <= j < |evals| => g * evals[j]);
    var privkeyShares := seq(|evals|, j requires 0 <= j < |evals| => h * evals[j]);
    var x := thresholdPoly[0];
    pubkey, privkey := g * x, h * x;

    ghost var publicList := PublicContexts(thresholdPoly, groupGen, groupGenInv, bs, blind);
    privateContexts := [];
    var publicContexts := [];
    for index := 0 to sharesNum
      invariant |privateContexts| == index
      invariant forall k :: 0 <= k < index ==> privateContexts[k] == BarePrivateContext(thresholdPoly, groupGen, bs, k)
      invariant publicContexts == publicList[..index]
    {
      var privateKeyShare := PrivateKeyShare([privkeyShares[index]]);
      var b := bs[index];
      var blindedKeyShares := blind(privateKeyShare, b, [domainPointsInv[index]]);
      privateContexts := privateContexts + [PrivateDecryptionContext(index, b, Inverse(b), privateKeyShare, [], g, -g, -h)];
      var domain := [domainPoints[index]];
      var lagrangeN0 := ProductPrefix(domain, |domain|);
      if |domain| % 2 == 1 {
        lagrangeN0 := -lagrangeN0;
      }
      publicContexts := publicContexts
        + [PublicDecryptionContext(domain, PublicKeyShares([pubkeyShares[index]]), blindedKeyShares, lagrangeN0)];
    }
    assert publicContexts == publicList;
    for k := 0 to sharesNum
      invariant |privateContexts| == sharesNum
      invariant forall j :: 0 <= j < k ==>
        privateContexts[j] == BarePrivateContext(thresholdPoly, groupGen, bs, j).(publicDecryptionContexts := publicList)
      invariant forall j :: k <= j < sharesNum ==> privateContexts[j] == BarePrivateContext(thresholdPoly, groupGen, bs, j)
    {
      privateContexts := privateContexts[k := privateContexts[k].(publicDecryptionContexts := publicContexts)];
    }
    assert OwnDomainPoints(privateContexts) == Powers(groupGen, sharesNum);
    assert KeyShareValues(privateContexts) == EvalAll(thresholdPoly, Powers(groupGen, sharesNum));
  }

  /**
   * The dealt shares reconstruct the private key: when the domain points are
   * distinct, interpolating the shares f(ω^i) at 0 gives f(0).
   */
  lemma SetupSharesReconstruct(thresholdPoly: Poly, groupGen: Scalar, sharesNum: nat)
    requires 1 <= |thresholdPoly| <= sharesNum
    requires Distinct(Powers(groupGen, sharesNum))
    ensures Interpolate(Powers(groupGen, sharesNum), EvalAll(thresholdPoly, Powers(groupGen, sharesNum)), 0.0)
            == thresholdPoly[0]
  {
    var xs := Powers(groupGen, sharesNum);
    InterpolationOfValues(xs, EvalAll(thresholdPoly, xs), thresholdPoly, 0.0);
  }

  /**
   * Every public context the dealer makes has one domain point and stores its
   * negation as `lagrange_n_0`, which is what prepare_combine asserts and relies
   * on, provided blinding keeps one blinded share per key share.
   */
  lemma SetupContextsSuitPrepareCombine(
    thresholdPoly: Poly, groupGen: Scalar, groupGenInv: Scalar, bs: seq<Scalar>, blind: Blinder,
    shares: seq<DecryptionShareFast>)
    requires forall k :: 0 <= k < |shares| ==> shares[k].decrypterIndex < |bs|
    requires forall i :: 0 <= i < |bs| ==>
      |blind(KeyShareAt(thresholdPoly, groupGen, i), bs[i], [Pow(groupGenInv, i)]).blindedKeyShares| == 1
    ensures forall k :: 0 <= k < |shares| ==>
      StoresNegatedPoint(PublicContexts(thresholdPoly, groupGen, groupGenInv, bs, blind), shares[k])
  {
  }

  /** The tag-hash input: ser(u) ‖ stream ciphertext ‖ aad. */
  function TagHashInput(u: G1, streamCiphertext: seq<byte>, aad: seq<byte>, encodePoint: G1 -> seq<byte>): seq<byte>
  {
    encodePoint(u) + streamCiphertext + aad
  }

  /** Appends the three parts to an empty buffer and hashes it to G2 (a foreign map). */
  method ConstructTagHash(
    u: G1, streamCiphertext: seq<byte>, aad: seq<byte>, encodePoint: G1 -> seq<byte>, hashToG2: seq<byte> -> G2)
    returns (tag: G2)
    ensures tag == hashToG2(TagHashInput(u, streamCiphertext, aad, encodePoint))
  {
    var hashInput: seq<byte> := [];
    hashInput := hashInput + encodePoint(u);
    hashInput := hashInput + streamCiphertext;
    hashInput := hashInput + aad;
    assert hashInput == TagHashInput(u, streamCiphertext, aad, encodePoint);
    tag := hashToG2(hashInput);
  }

  /**
   * With a fixed-width, injective point encoding the input determines the
   * commitment and the concatenation of stream ciphertext and aad.
   */
  lemma TagHashInputDeterminesCommitment(
    u: G1, ct: seq<byte>, aad: seq<byte>, u': G1, ct': seq<byte>, aad': seq<byte>,
    encodePoint: G1 -> seq<byte>, width: nat)
    requires |encodePoint(u)| == width && |encodePoint(u')| == width
    requires encodePoint(u) == encodePoint(u') ==> u == u'
    requires TagHashInput(u, ct, aad, encodePoint) == TagHashInput(u', ct', aad', encodePoint)
    ensures u == u' && ct + aad == ct' + aad'
  {
    var input := TagHashInput(u, ct, aad, encodePoint);
    assert input[..width] == encodePoint(u);
    assert input[..width] == encodePoint(u');
    assert input[width..] == ct + aad;
    assert input[width..] == ct' + aad';
  }

  /**
   * The boundary between stream ciphertext and aad is not part of the input: a
   * byte moved from one to the other gives the same tag.
   */
  lemma TagHashInputBoundaryLost(u: G1, encodePoint: G1 -> seq<byte>)
    ensures TagHashInput(u, [0x2a], [], encodePoint) == TagHashInput(u, [], [0x2a], encodePoint)
  {
    assert encodePoint(u) + [0x2a] + [] == encodePoint(u) + [] + [0x2a];
  }

  /** `n` scalars, the i-th of them the i-th draw of the generator. */
  function GenerateRandom(n: nat, draw: nat -> Scalar): (r: seq<Scalar>)
    ensures |r| == n
    ensures forall i :: 0 <= i < n ==> r[i] == draw(i)
  {
    seq(n, i requires 0 <= i => draw(i))
  }
}
