/**
 * The data the threshold-decryption crate (ferveo-tdec) passes around: the
 * ciphertext and its header, key shares, and the public and private
 * decryption contexts of a participant, all in exponent form.
 */
module TdecTypes {
  import opened Field
  import opened Bytes

  /** The header of a ciphertext: the commitment U = [r]G and the tag W. */
  datatype CiphertextHeader = CiphertextHeader(commitment: G1, authTag: G2)

  /** A ciphertext: the header's two elements and the symmetric payload. */
  datatype Ciphertext = Ciphertext(commitment: G1, authTag: G2, payload: seq<byte>)

  /**
   * The validity check of a ciphertext header against its additional
   * authenticated data (check 4.4.2 of eprint 2022/898). It hashes to the curve
   * and compares two pairings; its internals are not part of this model, so it
   * is taken as a parameter.
   */
  type HeaderCheck = (CiphertextHeader, seq<byte>) -> bool

  datatype TdecError = CiphertextVerificationFailed | DecryptionShareVerificationFailed

  datatype Result<T> = Ok(value: T) | Err(error: TdecError)

  /** [b]H and [b]Z_i: a private key share blinded by the validator's key b. */
  datatype BlindedKeyShare = BlindedKeyShare(validatorPublicKey: G2, blindedKeyShare: G2)

  /** What every participant knows about participant i. */
  datatype PublicDecryptionContextSimple = PublicDecryptionContextSimple(
    domain: Scalar,
    shareCommitment: G1,
    blindedKeyShare: BlindedKeyShare,
    h: G2,
    validatorPublicKey: G2)

  /** The validator's decryption key b and its inverse, with the generators. */
  datatype SetupParams = SetupParams(b: Scalar, bInv: Scalar, g: G1, h: G2)

  /** What participant `index` alone knows. */
  datatype PrivateDecryptionContextSimple = PrivateDecryptionContextSimple(
    index: nat,
    setupParams: SetupParams,
    privateKeyShare: G2,
    publicDecryptionContexts: seq<PublicDecryptionContextSimple>)
}
