/**
 * Decryption shares of the fast variant of the older tpke crate
 * (tpke/src/decryption.rs): their byte framing and the pairing equations that
 * verify them, one share at a time or in a random linear batch.
 *
 * A fast share of participant i for commitment U is D_i = [b_i^{-1}]U; it is
 * accepted when e(U, -H)·e(D_i, B_i) = 1, with B_i = [b_i]H the blinding key.
 */
module TpkeDecryption {
  import opened Field
  import opened Bytes
  import opened TdecTypes
  import opened TpkeTypes

  datatype Option<T> = None | Some(value: T)

  /** The canonical encoding of a G1 point; its format is not part of this model. */
  type PointEncoder = G1 -> seq<byte>
  /** The canonical decoding of a G1 point from the front of a byte string. */
  type PointDecoder = seq<byte> -> Option<G1>

  /** bincode's 8-byte little-endian `usize`, then the point's canonical bytes. */
  function Serialized(s: DecryptionShareFast, encodePoint: PointEncoder): (bytes: seq<byte>)
    requires s.decrypterIndex < U64Bound
    ensures |bytes| >= 8
  {
    Radix8();
    EncodeLittleEndian(s.decrypterIndex, 8) + encodePoint(s.decryptionShare)
  }

  /** Appends the index and then the point to an empty buffer. */
  method ToBytes(s: DecryptionShareFast, encodePoint: PointEncoder) returns (bytes: seq<byte>)
    requires s.decrypterIndex < U64Bound
    ensures bytes == Serialized(s, encodePoint)
  {
    Radix8();
    bytes := [];
    var decrypterIndex := EncodeLittleEndian(s.decrypterIndex, 8);
    bytes := bytes + decrypterIndex;
    bytes := bytes + encodePoint(s.decryptionShare);
  }

  /**
   * The index from bytes [0..8] and the point from bytes [8..]. Fewer than 8
   * bytes or an undecodable point panic in the source (a slice out of range, an
   * unwrap), so both are preconditions here.
   */
  function FromBytes(bytes: seq<byte>, decodePoint: PointDecoder): (s: DecryptionShareFast)
    requires |bytes| >= 8
    requires decodePoint(bytes[8..]).Some?
    ensures s.decrypterIndex < U64Bound
    ensures EncodeLittleEndian(s.decrypterIndex, 8) == bytes[..8]
    ensures Some(s.decryptionShare) == decodePoint(bytes[8..])
  {
    Radix8();
    EncodeDecode(bytes[..8]);
    DecryptionShareFast(DecodeLittleEndian(bytes[..8]), decodePoint(bytes[8..]).value)
  }

  /**
   * Decoding what was encoded gives the share back, so serializing again gives
   * the same bytes, provided the point codec round-trips on the share's point.
   */
  lemma SerializationRoundTrip(s: DecryptionShareFast, encodePoint: PointEncoder, decodePoint: PointDecoder)
    requires s.decrypterIndex < U64Bound
    requires decodePoint(encodePoint(s.decryptionShare)) == Some(s.decryptionShare)
    ensures var bytes := Serialized(s, encodePoint);
      decodePoint(bytes[8..]).Some?
      && FromBytes(bytes, decodePoint) == s
      && Serialized(FromBytes(bytes, decodePoint), encodePoint) == bytes
  {
    Radix8();
    var bytes := Serialized(s, encodePoint);
    assert bytes[..8] == EncodeLittleEndian(s.decrypterIndex, 8);
    assert bytes[8..] == encodePoint(s.decryptionShare);
    DecodeEncode(s.decrypterIndex, 8);
  }

  /** e(U, -H)·e(D_i, B_i) = 1, in exponent form a sum that must be zero. */
  predicate FastShareHolds(commitment: G1, hInv: G2, decryptionShare: G1, blindingKey: G2)
  {
    Pairing(commitment, hInv) + Pairing(decryptionShare, blindingKey) == GTOne
  }

  predicate IndicesInRange(pubContexts: seq<PublicDecryptionContextFast>, shares: seq<DecryptionShareFast>)
  {
    forall k :: 0 <= k < |shares| ==> shares[k].decrypterIndex < |pubContexts|
  }

  function BlindingKeys(pubContexts: seq<PublicDecryptionContextFast>, shares: seq<DecryptionShareFast>)
    : (keys: seq<G2>)
    requires IndicesInRange(pubContexts, shares)
    ensures |keys| == |shares|
  {
    seq(|shares|, k requires 0 <= k < |shares| && IndicesInRange(pubContexts, shares) =>
      pubContexts[shares[k].decrypterIndex].blindingKey)
  }

  /**
   * True iff every share satisfies its two-term pairing equation against the
   * blinding key of the context it names, with -H taken from the first context;
   * stops at the first share that fails.
   */
  method VerifyDecryptionSharesFast(
    pubContexts: seq<PublicDecryptionContextFast>, ciphertext: Ciphertext, decryptionShares: seq<DecryptionShareFast>)
    returns (ok: bool)
    requires |pubContexts| > 0
    requires IndicesInRange(pubContexts, decryptionShares)
    ensures ok <==> forall k :: 0 <= k < |decryptionShares| ==>
      FastShareHolds(ciphertext.commitment, pubContexts[0].hInv, decryptionShares[k].decryptionShare,
                     BlindingKeys(pubContexts, decryptionShares)[k])
  {
    var blindingKeys := BlindingKeys(pubContexts, decryptionShares);
    var hInv := pubContexts[0].hInv;
    for k := 0 to |decryptionShares|
      invariant forall j :: 0 <= j < k ==>
        FastShareHolds(ciphertext.commitment, hInv, decryptionShares[j].decryptionShare, blindingKeys[j])
    {
      var pairingA := Pairing(ciphertext.commitment, hInv);
      var pairingB := Pairing(decryptionShares[k].decryptionShare, blindingKeys[k]);
      if pairingA + pairingB != GTOne {
        return false;
      }
    }
    return true;
  }

  /** Completeness: the share [b^{-1}]U satisfies the equation against B = [b]H and -H. */
  lemma HonestFastShareHolds(commitment: G1, b: Scalar)
    requires b != 0.0
    ensures FastShareHolds(commitment, -G2Generator, commitment * Inverse(b), b * G2Generator)
  {
    assert (commitment * Inverse(b)) * b == commitment * (Inverse(b) * b);
  }

  /** Soundness: against -H and a non-zero blinding key [b]H, only [b^{-1}]U passes. */
  lemma FastShareIsHonest(commitment: G1, b: Scalar, decryptionShare: G1)
    requires b != 0.0
    requires FastShareHolds(commitment, -G2Generator, decryptionShare, b * G2Generator)
    ensures decryptionShare == commitment * Inverse(b)
  {
    var r := Inverse(b);
    assert decryptionShare * b == commitment;
    calc {
      commitment * r;
      (decryptionShare * b) * r;
      decryptionShare * (r * b);
      { assert r * b == 1.0; }
      decryptionShare * 1.0;
    }
  }

  /** sum_{j < n} alpha[j]. */
  function SumPrefix(alpha: seq<Scalar>, n: nat): Scalar
    requires n <= |alpha|
  {
    if n == 0 then 0.0 else SumPrefix(alpha, n - 1) + alpha[n - 1]
  }

  /** sum_{i < n} [sum_j alpha_{i,j}]U_i over the zip of ciphertexts and alpha vectors. */
  function CommitmentSum(ciphertexts: seq<Ciphertext>, alphas: seq<seq<Scalar>>, n: nat): G1
    requires n <= |ciphertexts| && n <= |alphas|
  {
    if n == 0 then 0.0
    else CommitmentSum(ciphertexts, alphas, n - 1) + ciphertexts[n - 1].commitment * SumPrefix(alphas[n - 1], |alphas[n - 1]|)
  }

  /**
   * sum_{i < n} alpha_{i,k}·D_{i,k}: the k-th accumulator after n rows, where a
   * row adds to slot k only if both its shares and its alphas reach k.
   */
  function WeightedShareSum(decryptionShares: seq<seq<DecryptionShareFast>>, alphas: seq<seq<Scalar>>, k: nat, n: nat): G1
    requires n <= |decryptionShares| && n <= |alphas|
  {
    if n == 0 then 0.0
    else WeightedShareSum(decryptionShares, alphas, k, n - 1)
         + (if k < |decryptionShares[n - 1]| && k < |alphas[n - 1]|
            then decryptionShares[n - 1][k].decryptionShare * alphas[n - 1][k] else 0.0)
  }

  /** The product of pairings of a list of pairs, in exponent form. */
  function PairingProduct(pairs: seq<(G1, G2)>): GT
  {
    if |pairs| == 0 then GTOne else PairingProduct(pairs[..|pairs| - 1]) + Pairing(pairs[|pairs| - 1].0, pairs[|pairs| - 1].1)
  }

  /**
   * The pairs the batch check multiplies: (sum_i [sum_j alpha_{i,j}]U_i, -H)
   * first, then one pair (sum_i [alpha_{i,j}]D_{i,j}, B_j) per share of the
   * first ciphertext.
   */
  function BatchPairs(
    pubContexts: seq<PublicDecryptionContextFast>, ciphertexts: seq<Ciphertext>,
    decryptionShares: seq<seq<DecryptionShareFast>>, alphas: seq<seq<Scalar>>)
    : (pairs: seq<(G1, G2)>)
    requires |pubContexts| > 0 && |decryptionShares| > 0
    requires IndicesInRange(pubContexts, decryptionShares[0])
    ensures |pairs| == |decryptionShares[0]| + 1
  {
    var numShares := |decryptionShares[0]|;
    var blindingKeys := BlindingKeys(pubContexts, decryptionShares[0]);
    var m := Min(|decryptionShares|, |alphas|);
    [(CommitmentSum(ciphertexts, alphas, Min(|ciphertexts|, |alphas|)), pubContexts[0].hInv)]
    + seq(numShares, k requires 0 <= k < numShares =>
        (WeightedShareSum(decryptionShares, alphas, k, m), blindingKeys[k]))
  }

  /**
   * The random linear combination check over several ciphertexts: one vector
   * of `num_shares` scalars per ciphertext (taken here as the parameter
   * `alphas`, drawn at random in the source), `num_shares + 1` pairs, and
   * acceptance iff their product is the identity.
   */
  method BatchVerifyDecryptionShares(
    pubContexts: seq<PublicDecryptionContextFast>, ciphertexts: seq<Ciphertext>,
    decryptionShares: seq<seq<DecryptionShareFast>>, alphas: seq<seq<Scalar>>)
    returns (ok: bool)
    requires |pubContexts| > 0 && |decryptionShares| > 0
    requires IndicesInRange(pubContexts, decryptionShares[0])
    requires |alphas| == |ciphertexts|
    requires forall i :: 0 <= i < |alphas| ==> |alphas[i]| == |decryptionShares[0]|
    ensures ok <==> PairingProduct(BatchPairs(pubContexts, ciphertexts, decryptionShares, alphas)) == GTOne
  {
    var numShares := |decryptionShares[0]|;
    var blindingKeys := BlindingKeys(pubContexts, decryptionShares[0]);
    var sumU := 0.0;
    for i := 0 to |ciphertexts|
      invariant sumU == CommitmentSum(ciphertexts, alphas, i)
    {
      var sumAlpha := 0.0;
      for j := 0 to |alphas[i]|
        invariant sumAlpha == SumPrefix(alphas[i], j)
      {
        sumAlpha := sumAlpha + alphas[i][j];
      }
      sumU := sumU + ciphertexts[i].commitment * sumAlpha;
    }
    var pairings := [(sumU, pubContexts[0].hInv)];
    var sumD := seq(numShares, _ => 0.0);
    var m := Min(|decryptionShares|, |alphas|);
    for i := 0 to m
      invariant |sumD| == numShares
      invariant forall k :: 0 <= k < numShares ==> sumD[k] == WeightedShareSum(decryptionShares, alphas, k, i)
    {
      var d := decryptionShares[i];
      var alphaJ := alphas[i];
      var prev := sumD;
      for k := 0 to Min(numShares, |d|)
        invariant |sumD| == numShares
        invariant forall l :: 0 <= l < k ==> sumD[l] == prev[l] + d[l].decryptionShare * alphaJ[l]
        invariant forall l :: k <= l < numShares ==> sumD[l] == prev[l]
      {
        sumD := sumD[k := sumD[k] + d[k].decryptionShare * alphaJ[k]];
      }
    }
    for k := 0 to numShares
      invariant pairings == BatchPairs(pubContexts, ciphertexts, decryptionShares, alphas)[..k + 1]
    {
      pairings := pairings + [(sumD[k], blindingKeys[k])];
    }
    assert pairings == BatchPairs(pubContexts, ciphertexts, decryptionShares, alphas);
    ok := PairingProduct(pairings) == GTOne;
  }
}
