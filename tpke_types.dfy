/**
 * The data of the older threshold-encryption crate (tpke): public and private
 * decryption contexts that hold vectors of domain points and key shares (one
 * entry each in practice), and the decryption-share records, in exponent form.
 *
 * The definitions of these records live in tpke/src/context.rs and
 * tpke/src/key_share.rs, which are not part of this model; the fields below are
 * the ones the modelled functions read and write.
 */
module TpkeTypes {
  import opened Field

  datatype PublicKeyShares = PublicKeyShares(publicKeyShares: seq<G1>)

  /** [b]H and the key shares blinded by b. */
  datatype BlindedKeyShares = BlindedKeyShares(blindingKey: G2, blindedKeyShares: seq<G2>)

  datatype PublicDecryptionContext = PublicDecryptionContext(
    domain: seq<Scalar>,
    publicKeyShares: PublicKeyShares,
    blindedKeyShares: BlindedKeyShares,
    lagrangeN0: Scalar)

  datatype PrivateKeyShare = PrivateKeyShare(privateKeyShares: seq<G2>)

  /**
   * What participant `index` knows; `gInv` and `hInv` are the negated
   * generators -g and -h used as second pairing arguments.
   */
  datatype PrivateDecryptionContext = PrivateDecryptionContext(
    index: nat,
    b: Scalar,
    bInv: Scalar,
    privateKeyShare: PrivateKeyShare,
    publicDecryptionContexts: seq<PublicDecryptionContext>,
    g: G1,
    gInv: G1,
    hInv: G2)

  /** A decryption share [b_i^{-1}]U of the fast variant, with its sender. */
  datatype DecryptionShareFast = DecryptionShareFast(decrypterIndex: nat, decryptionShare: G1)

  /** A decryption share e(U, Z_i) of the simple variant, with its sender. */
  datatype DecryptionShareSimple = DecryptionShareSimple(decrypterIndex: nat, decryptionShare: GT)

  /** What the fast-variant verifier knows about participant i. */
  datatype PublicDecryptionContextFast = PublicDecryptionContextFast(
    domain: Scalar,
    publicKey: G1,
    blindingKey: G2,
    lagrangeN0: Scalar,
    hInv: G2)
}
