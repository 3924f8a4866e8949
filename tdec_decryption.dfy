/**
 * Decryption shares of the threshold scheme and the equations that verify
 * them (ferveo-tdec/src/decryption.rs), in exponent form.
 *
 * A participant holding private key share Z_i and validator decryption key
 * dk_i answers a ciphertext with commitment U by
 *   - the decryption share D_i = e(U, Z_i), and
 *   - the checksum C_i = dk_i^{-1}·U.
 * A verifier who knows the blinded key share Y_i = dk_i·Z_i and the validator's
 * public key ek_i = dk_i·H accepts when D_i = e(C_i, Y_i) and
 * e(C_i, ek_i) = e(U, H) (check 4.4.4 of eprint 2022/898).
 */
module TdecDecryption {
  import opened Field
  import opened Bytes
  import opened TdecTypes

  datatype ValidatorShareChecksum = ValidatorShareChecksum(checksum: G1)

  datatype DecryptionShareSimple = DecryptionShareSimple(
    decryptionShare: GT,
    validatorChecksum: ValidatorShareChecksum)

  datatype DecryptionSharePrecomputed = DecryptionSharePrecomputed(
    decrypterIndex: nat,
    decryptionShare: GT,
    validatorChecksum: ValidatorShareChecksum)

  /** C_i = dk_i^{-1}·U; a decryption key without inverse (zero) panics. */
  function NewChecksum(dk: Scalar, header: CiphertextHeader): (r: Result<ValidatorShareChecksum>)
    requires dk != 0.0
    ensures r.Ok?
    ensures r.value.checksum * dk == header.commitment
  {
    Ok(ValidatorShareChecksum(header.commitment * Inverse(dk)))
  }

  /** D_i == e(C_i, Y_i) and e(C_i, ek_i) == e(U, H). */
  predicate VerifyChecksum(
    c: ValidatorShareChecksum, decryptionShare: GT, shareAggregate: G2,
    validatorPublicKey: G2, ciphertext: Ciphertext)
  {
    decryptionShare == Pairing(c.checksum, shareAggregate)
    && Pairing(c.checksum, validatorPublicKey) == Pairing(ciphertext.commitment, G2Generator)
  }

  /** D_i = e(U, Z_i) with its checksum; the ciphertext is not checked. */
  function CreateSimpleUnchecked(dk: Scalar, privateKeyShare: G2, header: CiphertextHeader)
    : (r: Result<DecryptionShareSimple>)
    requires dk != 0.0
    ensures r.Ok?
    ensures r.value.decryptionShare == Pairing(header.commitment, privateKeyShare)
    ensures r.value.validatorChecksum.checksum * dk == header.commitment
  {
    var checksum := NewChecksum(dk, header).value;
    Ok(DecryptionShareSimple(Pairing(header.commitment, privateKeyShare), checksum))
  }

  /** The ciphertext check runs first; its failure is returned and no share is made. */
  function CreateSimple(
    dk: Scalar, privateKeyShare: G2, header: CiphertextHeader, aad: seq<byte>, check: HeaderCheck)
    : (r: Result<DecryptionShareSimple>)
    requires check(header, aad) ==> dk != 0.0
    ensures r.Err? <==> !check(header, aad)
    ensures r.Err? ==> r.error == CiphertextVerificationFailed
    ensures r.Ok? ==> r == CreateSimpleUnchecked(dk, privateKeyShare, header)
  {
    if !check(header, aad) then Err(CiphertextVerificationFailed)
    else CreateSimpleUnchecked(dk, privateKeyShare, header)
  }

  predicate VerifySimple(s: DecryptionShareSimple, shareAggregate: G2, validatorPublicKey: G2, ciphertext: Ciphertext)
  {
    VerifyChecksum(s.validatorChecksum, s.decryptionShare, shareAggregate, validatorPublicKey, ciphertext)
  }

  /** The precomputed share e(λ·U, Z_i), recording the validator's index. */
  function CreatePrecomputedUnchecked(
    validatorIndex: nat, dk: Scalar, privateKeyShare: G2, header: CiphertextHeader, lagrangeCoeff: Scalar)
    : (r: Result<DecryptionSharePrecomputed>)
    requires dk != 0.0
    ensures r.Ok?
    ensures r.value.decrypterIndex == validatorIndex
    ensures r.value.decryptionShare == Pairing(header.commitment * lagrangeCoeff, privateKeyShare)
    ensures r.value.validatorChecksum.checksum * dk == header.commitment
  {
    var checksum := NewChecksum(dk, header).value;
    Ok(DecryptionSharePrecomputed(validatorIndex, Pairing(header.commitment * lagrangeCoeff, privateKeyShare), checksum))
  }

  function CreatePrecomputed(
    validatorIndex: nat, dk: Scalar, privateKeyShare: G2, header: CiphertextHeader, aad: seq<byte>,
    lagrangeCoeff: Scalar, check: HeaderCheck)
    : (r: Result<DecryptionSharePrecomputed>)
    requires check(header, aad) ==> dk != 0.0
    ensures r.Err? <==> !check(header, aad)
    ensures r.Err? ==> r.error == CiphertextVerificationFailed
    ensures r.Ok? ==> r == CreatePrecomputedUnchecked(validatorIndex, dk, privateKeyShare, header, lagrangeCoeff)
  {
    if !check(header, aad) then Err(CiphertextVerificationFailed)
    else CreatePrecomputedUnchecked(validatorIndex, dk, privateKeyShare, header, lagrangeCoeff)
  }

  predicate VerifyPrecomputed(
    s: DecryptionSharePrecomputed, shareAggregate: G2, validatorPublicKey: G2, ciphertext: Ciphertext)
  {
    VerifyChecksum(s.validatorChecksum, s.decryptionShare, shareAggregate, validatorPublicKey, ciphertext)
  }

  /**
   * Completeness: a share made honestly from Z_i and dk_i verifies against the
   * blinded share dk_i·Z_i and the public key dk_i·H.
   */
  lemma HonestShareVerifies(dk: Scalar, z: G2, header: CiphertextHeader, ciphertext: Ciphertext)
    requires dk != 0.0
    requires ciphertext.commitment == header.commitment
    ensures VerifySimple(CreateSimpleUnchecked(dk, z, header).value, dk * z, dk * G2Generator, ciphertext)
  {
    var s := CreateSimpleUnchecked(dk, z, header).value;
    var c := s.validatorChecksum.checksum;
    assert c * (dk * z) == (c * dk) * z;
  }

  /**
   * Soundness: against an honest key setup (ek_i = dk_i·H, Y_i = dk_i·Z_i), a
   * share that verifies carries the checksum dk_i^{-1}·U and the decryption
   * share e(U, Z_i); nothing else passes.
   */
  lemma VerifiedShareIsHonest(s: DecryptionShareSimple, dk: Scalar, z: G2, ciphertext: Ciphertext)
    requires dk != 0.0
    requires VerifySimple(s, dk * z, dk * G2Generator, ciphertext)
    ensures s.validatorChecksum.checksum * dk == ciphertext.commitment
    ensures s.decryptionShare == Pairing(ciphertext.commitment, z)
  {
    var c := s.validatorChecksum.checksum;
    assert c * (dk * z) == (c * dk) * z;
  }

  /** Replacing the decryption share of an honest share makes it fail. */
  lemma ReplacedShareFails(dk: Scalar, z: G2, header: CiphertextHeader, ciphertext: Ciphertext, d: GT)
    requires dk != 0.0
    requires ciphertext.commitment == header.commitment
    requires d != Pairing(header.commitment, z)
    ensures !VerifySimple(CreateSimpleUnchecked(dk, z, header).value.(decryptionShare := d), dk * z, dk * G2Generator, ciphertext)
  {
    var s := CreateSimpleUnchecked(dk, z, header).value.(decryptionShare := d);
    if VerifySimple(s, dk * z, dk * G2Generator, ciphertext) {
      VerifiedShareIsHonest(s, dk, z, ciphertext);
    }
  }

  /** A zero checksum fails for every ciphertext whose commitment is not zero. */
  lemma ZeroChecksumFails(s: DecryptionShareSimple, shareAggregate: G2, validatorPublicKey: G2, ciphertext: Ciphertext)
    requires ciphertext.commitment != 0.0
    ensures !VerifySimple(s.(validatorChecksum := ValidatorShareChecksum(0.0)), shareAggregate, validatorPublicKey, ciphertext)
  {
  }

  /**
   * A precomputed share verifies once the aggregate it is checked against is
   * scaled by the same Lagrange coefficient.
   */
  lemma PrecomputedShareVerifies(
    i: nat, dk: Scalar, z: G2, header: CiphertextHeader, lambda: Scalar, ciphertext: Ciphertext)
    requires dk != 0.0
    requires ciphertext.commitment == header.commitment
    ensures VerifyPrecomputed(CreatePrecomputedUnchecked(i, dk, z, header, lambda).value,
                              lambda * (dk * z), dk * G2Generator, ciphertext)
  {
    var s := CreatePrecomputedUnchecked(i, dk, z, header, lambda).value;
    var c := s.validatorChecksum.checksum;
    assert c * (lambda * (dk * z)) == (c * dk) * (lambda * z);
  }

  /**
   * True iff every zipped (share, blinded key share, context) triple verifies;
   * the blinded key shares are read from the contexts, so the zip stops at the
   * shorter of the shares and the contexts. Returns at the first failure.
   */
  method VerifyDecryptionSharesSimple(
    pubContexts: seq<PublicDecryptionContextSimple>, ciphertext: Ciphertext,
    decryptionShares: seq<DecryptionShareSimple>)
    returns (ok: bool)
    ensures ok <==> forall i :: 0 <= i < Min(|decryptionShares|, |pubContexts|) ==>
      VerifySimple(decryptionShares[i], pubContexts[i].blindedKeyShare.blindedKeyShare,
                   pubContexts[i].validatorPublicKey, ciphertext)
  {
    var blindedKeyShares := seq(|pubContexts|, i requires 0 <= i < |pubContexts| =>
      pubContexts[i].blindedKeyShare.blindedKeyShare);
    var n := Min(|decryptionShares|, |pubContexts|);
    var i := 0;
    while i < n
      invariant i <= n
      invariant forall k :: 0 <= k < i ==>
        VerifySimple(decryptionShares[k], blindedKeyShares[k], pubContexts[k].validatorPublicKey, ciphertext)
    {
      var isValid := VerifySimple(decryptionShares[i], blindedKeyShares[i], pubContexts[i].validatorPublicKey, ciphertext);
      if !isValid {
        return false;
      }
      i := i + 1;
    }
    return true;
  }
}
