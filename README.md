# ferveo threshold decryption and DKG, modelled in Dafny

This project models the algebra and the bookkeeping of ferveo, a threshold
decryption and distributed key generation (DKG) library written in Rust.
Both generations of the code are covered:

- the older `tpke` crate, `ferveo/src/vss/pvss.rs` and the block-scheduled
  DKG state machine of `ferveo/src/dkg/pv.rs`;
- the newer `ferveo-tdec` crate and `ferveo/src/{dkg,pvss,refresh,api}.rs`.

Within them the model covers:

- Lagrange coefficients and share combination;
- decryption-share creation, checksums and verification;
- the dealer's setup;
- proactive refresh and share recovery;
- publicly verifiable secret sharing (PVSS) transcripts, their aggregation, refresh and handover;
- the DKG context and the transcript admission checks;
- the API wrappers;
- address parsing;
- the line validator of the debug transcript reader.

**Exponent model.** The scalar field `Fr` is Dafny's `real`, an exact field.
Every element of G1, G2 and GT is represented by its discrete logarithm.

- Group addition is field addition.
- Scalar multiplication is multiplication.
- The pairing `e(a·G, b·H)` is `a*b` (`Field.Pairing`).
- A product in GT is a sum and a power in GT is a product.
- The generators are `1.0`.

Under this representation the pairing equations of the source become
polynomial identities, which the lemmas prove.

**Modelling conventions.**

- A panic in the source is a `requires` clause. This covers `assert!`, `unwrap` on an error, slice out of range, a `zip_eq` length mismatch and indexing out of range.
- A Rust `Err` is a `Result`/`Outcome` value with the source's error variant.
- Randomness (random polynomials, blinding factors, batch weights) is a parameter holding the drawn values.
- Foreign code is a function parameter or a fixed abstraction. This covers the ciphertext check, point serialization, hash to curve and the handover finalization.
- A `HashMap`, `HashSet` or `BTreeMap` is a Dafny `map`/`set`. Ordered traversal of a `BTreeMap` is `NatSets.ValuesInKeyOrder`.
- Code that updates state step by step is a `method` with loops and invariants, proved against a function of the inputs. This covers loops that push into vectors, accumulate in place or return early. The PVSS secret polynomial (an array that is zeroized) and the old DKG state machine of `dkg/pv.rs` are classes.
- Map and fold pipelines are functions.

Modules, one per source file, plus shared mathematics:

- `Field`, `Polynomial`, `Lagrange`, `EvaluationDomain`, `NatSets`, `Bytes`: the field, polynomials over it, Lagrange interpolation, the radix-2 evaluation domain and its FFT, ordered enumeration of index sets, little-endian and hex byte codecs;
- `TdecTypes`, `TdecCombine`, `TdecContext`, `TdecDecryption`: `ferveo-tdec/src/`;
- `TpkeTypes`, `TpkeCombine`, `TpkeDecryption`, `TpkeRefresh`, `TpkeSetup`: `tpke/src/`;
- `FerveoTypes`, `FerveoValidator`, `FerveoRefresh`, `FerveoPvss`, `VssPvss`, `FerveoDkg`, `DkgPv`, `FerveoApi`, `FerveoDebug`: `ferveo/src/`.

## Model

| member | source | states |
|---|---|---|
| Field.Inverse | ferveo-tdec/src/decryption.rs:28-35 | the field inverse: non-zero, and its product with the argument is one; zero has none (the source's `inverse().unwrap()` panics) |
| Field.SumByPermutation | ferveo-tdec/src/combine.rs:61-69 | a sum over a sequence does not depend on the order of its elements |
| Lagrange.Coeffs | ferveo-tdec/src/combine.rs:30-45 | one coefficient per point, in point order; coefficient j is the product of `(x_m - x_i)/(x_m - x_j)` over the points that differ from x_j |
| Lagrange.KroneckerDelta | ferveo-tdec/src/combine.rs:36-42 | at a point x_k of the set, L_j(x_k) is 1 when x_j equals x_k and 0 otherwise; duplicated points are skipped, so they never divide by zero |
| Lagrange.KroneckerDeltaDistinct | ferveo-tdec/src/combine.rs:36-42 | for pairwise distinct points, L_j(x_k) is 1 exactly when j = k |
| Lagrange.InterpolateAtNode | ferveo-tdec/src/combine.rs:30-45 | interpolating values at one of the distinct points gives that point's value |
| Lagrange.BasisPolyEval | ferveo-tdec/src/combine.rs:36-42 | the coefficient product is the value of a polynomial with at most n coefficients (the Lagrange basis polynomial) |
| Lagrange.InterpolationPolyEval | ferveo-tdec/src/combine.rs:47-59 | the interpolation sum is the value of one polynomial, the weighted sum of the basis polynomials |
| Lagrange.InterpolationExact | ferveo-tdec/src/combine.rs:47-59 | for pairwise distinct points and a polynomial f with at most as many coefficients as points, interpolating f's values reproduces f at every target; this is what secret reconstruction relies on |
| Lagrange.InterpolationOfValues | ferveo-tdec/src/combine.rs:47-59 | the same for values given as a sequence that matches f at the points |
| Polynomial.VanishesEverywhere | ferveo-tdec/src/combine.rs:47-59 | a polynomial with at most n coefficients that vanishes at n distinct points vanishes everywhere (the uniqueness half of exact interpolation) |
| Polynomial.EvalQuotient | ferveo-tdec/src/combine.rs:47-59 | division by `(x - r)`: p(x) = (x - r)·q(x) + p(r), the step the uniqueness proof inducts on |
| TdecCombine.LagrangeBasisAt | ferveo-tdec/src/combine.rs:30-45 | the nested loop yields exactly `Coeffs(shares_x, x_i)`: one coefficient per point, in order, each the product over the points that differ |
| TdecCombine.PrepareCombineSimple | ferveo-tdec/src/combine.rs:21-27 | the coefficients at target 0 |
| TdecCombine.ShareCombineSimple | ferveo-tdec/src/combine.rs:47-59 | the fold from the GT identity; an empty input (either list) gives the identity |
| TdecCombine.ZipStopsAtShorter | ferveo-tdec/src/combine.rs:52-57 | `izip!` stops at the shorter list: elements beyond it do not change the result |
| TdecCombine.CombinePrefixOfHonestShares | ferveo-tdec/src/combine.rs:52-57 | shares e(U, y_j) raised to λ_j and multiplied are e(U, Σ y_j·λ_j) |
| TdecCombine.ShareCombineSimpleReconstructs | ferveo-tdec/src/combine.rs:47-59 | shares e(U, f(x_j)) at distinct points, combined with the target-0 coefficients, give e(U, f(0)) when f has at most as many coefficients as there are points |
| TdecCombine.ShareCombinePrecomputed | ferveo-tdec/src/combine.rs:61-69 | the product of all shares, the GT identity for no shares |
| TdecCombine.ShareCombinePrecomputedOrderFree | ferveo-tdec/src/combine.rs:61-69 | the precomputed combination does not depend on the order of the shares |
| TdecCombine.ShareCombinePrecomputedReconstructs | ferveo-tdec/src/combine.rs:61-69 | precomputed shares e(λ_j·U, f(x_j)) made with the target-0 coefficients of distinct points multiply to e(U, f(0)) |
| TdecContext.CreateShare | ferveo-tdec/src/context.rs:48-60 | delegates to the simple share with the context's b: an error exactly when the ciphertext check fails, otherwise e(U, Z_i) with checksum b⁻¹·U |
| TdecContext.SelectedDomainPoints | ferveo-tdec/src/context.rs:68-71 | one point per selected participant, in selection order, read from that participant's public context |
| TdecContext.CreateSharePrecomputed | ferveo-tdec/src/context.rs:62-84 | as written: coefficients over the selected points only; the one used is at position `self.index` of the selection; the share records `self.index`; check errors propagate |
| TdecContext.CreateSharePrecomputedAtOwnPosition | ferveo-tdec/src/context.rs:62-84 | corrected: the coefficient is the one at the participant's own position in the selection |
| TdecContext.CorrectedSharesReconstruct | ferveo-tdec/src/context.rs:62-84 | with the corrected lookup, the selected participants' precomputed shares combine to e(U, f(0)) for any selection of at least as many participants, at distinct points, as f has coefficients, in any order |
| TdecContext.SelectionOrderBreaksReconstruction | ferveo-tdec/src/context.rs:81 | as written, the selection [1, 0] over points 1, 2 and f(x) = 5 + x combines to e(U, 8) instead of e(U, 5) |
| TdecDecryption.NewChecksum | ferveo-tdec/src/decryption.rs:23-37 | the checksum C_i satisfies C_i·dk_i = U; a zero key panics |
| TdecDecryption.CreateSimpleUnchecked | ferveo-tdec/src/decryption.rs:99-117 | the share is e(U, Z_i) and its checksum is dk_i⁻¹·U; the ciphertext is not checked |
| TdecDecryption.CreateSimple | ferveo-tdec/src/decryption.rs:82-95 | the ciphertext check runs first: an error exactly when it fails, otherwise the unchecked share |
| TdecDecryption.CreatePrecomputedUnchecked | ferveo-tdec/src/decryption.rs:176-200 | the share is e(λ·U, Z_i) and records `decrypter_index = validator_index` |
| TdecDecryption.CreatePrecomputed | ferveo-tdec/src/decryption.rs:155-172 | the ciphertext check runs first: an error exactly when it fails, otherwise the unchecked share |
| TdecDecryption.HonestShareVerifies | ferveo-tdec/src/decryption.rs:119-131 | completeness: an honest share verifies against Y_i = dk_i·Z_i and ek_i = dk_i·H |
| TdecDecryption.VerifiedShareIsHonest | ferveo-tdec/src/decryption.rs:39-61 | soundness: against an honest key setup, a share that verifies has checksum dk_i⁻¹·U and value e(U, Z_i) |
| TdecDecryption.ReplacedShareFails | ferveo-tdec/src/decryption.rs:119-131 | replacing the decryption share of an honest share makes verification fail |
| TdecDecryption.ZeroChecksumFails | ferveo-tdec/src/decryption.rs:39-61 | a zero checksum fails for every ciphertext whose commitment is not zero |
| TdecDecryption.PrecomputedShareVerifies | ferveo-tdec/src/decryption.rs:203-215 | a precomputed share verifies against the blinded share scaled by its Lagrange coefficient |
| TdecDecryption.VerifyDecryptionSharesSimple | ferveo-tdec/src/decryption.rs:218-240 | true iff every zipped (share, key share, context) triple verifies; the zip stops at the shorter list; the loop returns at the first failure |
| TpkeCombine.OwnDomainPoints | tpke/src/combine.rs:51-66 | one point per private context, read from entry `index` of its own public list |
| TpkeCombine.PrepareCombineSimple | tpke/src/combine.rs:45-79 | one coefficient per private context, in order, equal to the target-0 Lagrange coefficients of the contexts' own points; the first argument is never read |
| TpkeCombine.ShareCombineSimple | tpke/src/combine.rs:101-120 | the product from the identity over the zipped pairs: the dot product of share values and coefficients, up to the shorter list |
| TpkeCombine.ShareCombineSimpleReconstructs | tpke/src/combine.rs:101-120 | simple shares e(U, f(x_j)) at distinct points combined with the target-0 coefficients give e(U, f(0)) |
| TpkeCombine.PrepareCombine | tpke/src/combine.rs:6-43 | one prepared key per share, in share order: the named context's single blinded share times n_0 / Π_{m≠i}(u_i - u_m); each named context must hold exactly one domain point and one blinded share (the source asserts both) |
| TpkeCombine.PrepareCombineCoefficient | tpke/src/combine.rs:19-25 | over distinct points whose contexts store -u as `lagrange_n_0`, the factor of share i is -u_i times its target-0 Lagrange coefficient |
| TpkeCombine.N0OfSinglePoints | tpke/src/combine.rs:12-20 | the running product n_0 is Π(-u_m) when each context stores -u as `lagrange_n_0` |
| TpkeDecryption.ToBytes | tpke/src/decryption.rs:15-24 | the 8-byte little-endian index followed by the point's bytes |
| TpkeDecryption.FromBytes | tpke/src/decryption.rs:26-38 | the index is decoded from bytes [0..8] (below 2^64) and the point from bytes [8..]; fewer than 8 bytes panic |
| TpkeDecryption.SerializationRoundTrip | tpke/src/decryption.rs:15-38 | decoding the encoding gives the share back, and encoding again gives the same bytes, when the point codec round-trips |
| Bytes.DecodeEncode | tpke/src/decryption.rs:15-38 | decoding the little-endian encoding of an index below the radix gives the index |
| Bytes.EncodeDecode | tpke/src/decryption.rs:26-38 | encoding a decoded byte string at its own width gives the same bytes |
| TpkeDecryption.VerifyDecryptionSharesFast | tpke/src/decryption.rs:113-146 | true iff every share satisfies e(U, -H)·e(D_i, B_i) = 1 against the blinding key of the context it names; returns at the first failure |
| TpkeDecryption.HonestFastShareHolds | tpke/src/decryption.rs:129-145 | completeness: the share b⁻¹·U passes against B = b·H |
| TpkeDecryption.FastShareIsHonest | tpke/src/decryption.rs:129-145 | soundness: against a non-zero blinding key only b⁻¹·U passes |
| TpkeDecryption.BatchPairs | tpke/src/decryption.rs:70-107 | `num_shares + 1` pairs: (Σ_i (Σ_j α_ij)·U_i, -H) first, then one (Σ_i α_ij·D_ij, B_j) per share of the first ciphertext |
| TpkeDecryption.BatchVerifyDecryptionShares | tpke/src/decryption.rs:49-110 | accepts iff the product of the pairings of `BatchPairs` is the GT identity; the accumulators are those of the in-place loop |
| TpkeSetup.DomainPoints | tpke/src/lib.rs:91-108 | after the loop the points are ω^0..ω^{n-1} and the inverse points ω⁻¹^0..ω⁻¹^{n-1}, both of length `shares_num` |
| TpkeSetup.PowersCancel | tpke/src/lib.rs:91-108 | when ω·ω⁻¹ = 1, the i-th inverse point is the inverse of the i-th point |
| TpkeSetup.NegatedProductSign | tpke/src/lib.rs:173-176 | the product of the points negated when their count is odd equals Π(-x_m) |
| TpkeSetup.LagrangeN0IsNegatedProduct | tpke/src/lib.rs:173-176 | `lagrange_n_0` of a context is Π(-x_m) over its domain |
| TpkeSetup.PublicContextAt | tpke/src/lib.rs:173-184 | the public context of participant i has domain [ω^i] and `lagrange_n_0 = -ω^i` |
| TpkeSetup.PublicContexts | tpke/src/lib.rs:142-185 | one public context per participant, in order |
| TpkeSetup.Setup | tpke/src/lib.rs:73-195 | keys [f(0)]G and [f(0)]H; context i has index i, b_i⁻¹·b_i = 1, its own point, one key share f(ω^i), and the full public list; the points are the powers of ω; `shares_num >= threshold` is asserted |
| TpkeSetup.SetupSharesReconstruct | tpke/src/lib.rs:73-195 | the dealt shares f(ω^i) interpolate at 0 to the secret f(0) when the points are distinct and f has at most `shares_num` coefficients |
| TpkeSetup.SetupContextsSuitPrepareCombine | tpke/src/lib.rs:142-185 | every public context the dealer makes has one domain point and stores its negation as `lagrange_n_0`, which `prepare_combine` asserts and relies on |
| TpkeSetup.ConstructTagHash | tpke/src/lib.rs:60-71 | the tag is the hash of ser(u) ‖ stream ciphertext ‖ aad |
| TpkeSetup.TagHashInputDeterminesCommitment | tpke/src/lib.rs:65-68 | with a fixed-width injective point encoding, the input determines u and the concatenation of ciphertext and aad |
| TpkeSetup.TagHashInputBoundaryLost | tpke/src/lib.rs:65-68 | the boundary between ciphertext and aad is not framed: moving a byte across it gives the same input |
| TpkeSetup.GenerateRandom | tpke/src/lib.rs:320-325 | exactly n scalars, the i-th being the i-th draw |
| TpkeRefresh.EvaluatePolynomial | tpke/src/refresh.rs:114-125 | the loop with a running power computes Σ c_i·x^i, zero for no coefficients |
| TpkeRefresh.ZeroedAt | tpke/src/refresh.rs:97-107 | coefficients 1.. are the draws unchanged, and the polynomial vanishes at x_r |
| TpkeRefresh.MakeRandomPolynomial | tpke/src/refresh.rs:91-112 | the insert-then-overwrite yields `ZeroedAt(x_r, draws)`, of length `threshold` |
| TpkeRefresh.PrepareShareUpdatesKeys | tpke/src/refresh.rs:45-68 | one inner map per participant index, each with an entry for every participant index |
| TpkeRefresh.UpdateDecryptionShares | tpke/src/refresh.rs:71-89 | each participant gets its first key share plus Σ_j deltas[j][i], in participant order, whatever order the dealers are visited in |
| TpkeRefresh.UpdatesReachEveryone | tpke/src/refresh.rs:45-89 | the updates prepared for the participants hold an entry for every participant from every dealer, so applying them never misses a key |
| TpkeRefresh.FoldProducts | tpke/src/refresh.rs:32-34 | the fold of y_j·l_j from zero is the dot product |
| TpkeRefresh.RecoverShareAtPoint | tpke/src/refresh.rs:11-35 | Σ y'_j·L_j(x_r) over the updated shares and the first participant's points; `zip_eq` demands as many points as participants |
| TpkeRefresh.UpdatedShareIsShifted | tpke/src/refresh.rs:76-88 | each moved share is y_k + [P(x_k)]h for P the sum of the dealt polynomials |
| TpkeRefresh.DealtSumVanishes | tpke/src/refresh.rs:105-107 | the summed update polynomial vanishes at x_r and has at most `threshold` coefficients |
| TpkeRefresh.RecoveryInterpolatesOriginalShares | tpke/src/refresh.rs:11-35 | for a well-formed committee, the recovered value equals the interpolation of the original shares at x_r: the updates cancel |
| FerveoRefresh.CreateUpdatedKeyShare | ferveo/src/refresh.rs:48-57 | the share plus the sum of all updates; no updates leave it unchanged |
| FerveoRefresh.FoldUpdatesIsSum | ferveo/src/refresh.rs:53-55 | the fold from an accumulator adds the sum of the updates to it |
| FerveoRefresh.UpdatesCommute | ferveo/src/refresh.rs:48-57 | the order of the updates does not matter |
| FerveoRefresh.UnblindedRefreshedShare | ferveo/src/refresh.rs:48-57 | a blinded share b·z refreshed with updates (b·H)·d_j(x) and unblinded with b⁻¹ is z + Σ_j d_j(x) |
| FerveoRefresh.PickByShareIndex | ferveo/src/refresh.rs:104-119 | the loop collects the domain point and the share of each index in the given order; it fails with `InvalidShareIndex(k)` at the first index k without a domain point |
| FerveoRefresh.RecoverShareFromUpdatedPrivateShares | ferveo/src/refresh.rs:96-130 | visits the share indices in ascending order, then folds y_j·L_j(x_r) over the collected points |
| FerveoRefresh.FirstMissingIsSmallest | ferveo/src/refresh.rs:106-111 | in ascending order, the first index without a point is the smallest one |
| FerveoRefresh.RecoveryFailsOnlyWithoutPoint | ferveo/src/refresh.rs:106-119 | recovery fails iff some updated share has no domain point, and then reports the smallest such index |
| FerveoRefresh.RecoveryIgnoresExtraPoints | ferveo/src/refresh.rs:106-119 | domain points of indices without an updated share play no part |
| FerveoRefresh.RecoveryInterpolates | ferveo/src/refresh.rs:121-129 | when the updated shares are the values of f (at most as many coefficients as shares) at distinct points, recovery yields f(x_r) |
| FerveoRefresh.UpdatedSharesRecoverOriginal | ferveo/src/refresh.rs:96-130 | shares of p shifted by dealt polynomials that all vanish at x recover p(x): at x = 0 refreshed shares give back the group secret, at x = x_r the share held at x_r |
| FerveoRefresh.MakeRandomPolynomialWithRoot | ferveo/src/refresh.rs:416-437 | `degree + 1` coefficients, coefficients 1.. are the draws, and the polynomial vanishes at the root |
| FerveoRefresh.PrepareShareUpdatesWithRoot | ferveo/src/refresh.rs:382-413 | one commitment g·c_j per coefficient (`threshold` of them); updates keyed by exactly the input share indices, each `(pk_i·f(x_i), g·f(x_i))` for a polynomial vanishing at the root |
| FerveoRefresh.CreateRefreshUpdates | ferveo/src/refresh.rs:269-282 | root 0: the constant-term commitment is the identity |
| FerveoRefresh.CreateRecoveryUpdates | ferveo/src/refresh.rs:284-298 | root x_r: the committed polynomial vanishes at x_r |
| FerveoRefresh.VerifyShareUpdate | ferveo/src/refresh.rs:246-254 | Ok(true) iff e(g, update) = e(commitment, pk), otherwise `InvalidShareUpdate`; never Ok(false) |
| FerveoRefresh.DealtUpdateVerifies | ferveo/src/refresh.rs:246-254 | an update made for a key verifies against it |
| FerveoRefresh.VerifiedUpdateMatchesCommitment | ferveo/src/refresh.rs:246-254 | an update that verifies is the commitment's exponent times the key |
| FerveoRefresh.VerifyRecovery | ferveo/src/refresh.rs:309-361 | as written: Ok(true) iff every update index is inside the domain, otherwise `InvalidShareIndex` of an update beyond it; never Ok(false); on Ok(true) every update commitment is the FFT of the coefficient commitments (cut to the domain's size) at its index and the full list of coefficient commitments fits the root; the panicking checks (key lookup, update check, commitment match, the root-0 constant term or the Horner sum at the root) are its precondition |
| FerveoRefresh.VerifyRefresh | ferveo/src/refresh.rs:363-373 | `verify_recovery` at root 0: on Ok(true) the constant-term commitment is the identity |
| FerveoRefresh.RecoveryAcceptsOverlongCommitments | ferveo/src/refresh.rs:317-323 | as written, commitments [-2, 1] over the domain [1] with root 2 pass every check, yet the accepted update commitment -2 is not the committed polynomial's value -1 at 1, and the cut polynomial the updates follow does not vanish at 2 |
| FerveoRefresh.VerifyRecoveryChecked | ferveo/src/refresh.rs:309-361 | corrected: more coefficient commitments than domain elements is `InvalidShareUpdate`; Ok(true) iff they fit and every update index is inside the domain, and then every update commitment is the committed polynomial at its domain element and the polynomial fits the root |
| FerveoRefresh.DealtTranscriptVerifies | ferveo/src/refresh.rs:309-361 | completeness: a transcript dealt from a polynomial vanishing at the root, to participants at their domain elements, meets every panicking check and returns Ok(true) |
| FerveoRefresh.Rank | ferveo/src/refresh.rs:180-189 | the rank of a share index among the sorted indices; the sorted point at that rank is its own |
| FerveoRefresh.RankOfPosition | ferveo/src/refresh.rs:180-189 | the index at position j of the ascending order has rank j |
| FerveoRefresh.CreateDecryptionSharePrecomputed | ferveo/src/refresh.rs:151-204 | `InvalidShareIndex` when the index has no point; otherwise the precomputed share with the target-0 coefficient at the index's rank among the points sorted by share index, or the ciphertext error |
| FerveoRefresh.PrecomputedSharesOfEveryIndexReconstruct | ferveo/src/refresh.rs:151-204 | the shares every index of the map creates for key shares f(x), combined, give e(U, f(0)) |
| FerveoPvss.SecretPolynomial.constructor | ferveo/src/pvss.rs:71-80 | the coefficients are the drawn ones with coefficient 0 overwritten by the secret |
| FerveoPvss.SecretPolynomial.Zeroize | ferveo/src/pvss.rs:84-86 | every coefficient is set to zero in place |
| FerveoPvss.NewPvss | ferveo/src/pvss.rs:136-189 | always Ok: `threshold` coefficient commitments with coeffs[0] = g·s and sigma = h·s, one share per validator in share-index order, and the transcript is dealt from the secret polynomial |
| FerveoPvss.VerifyOptimistic | ferveo/src/pvss.rs:194-206 | e(F_0, h) = e(g, sigma) holds iff the committed constant term equals sigma's exponent |
| FerveoPvss.DealtPassesOptimistic | ferveo/src/pvss.rs:194-206 | a dealt transcript passes the optimistic check |
| FerveoPvss.VerifyValidatorShare | ferveo/src/pvss.rs:238-261 | `InvalidShareIndex(i)` iff the index is outside the shares or the commitments; otherwise true iff the share is the commitment times the validator key |
| FerveoPvss.DealtShareVerifies | ferveo/src/pvss.rs:238-261 | each share of a dealt transcript matches the commitment evaluated at its validator's domain element |
| FerveoPvss.AssertNoShareDuplicates | ferveo/src/pvss.rs:271 | Ok iff the share indices are pairwise distinct; otherwise `DuplicatedShareIndex` of an index held twice |
| FerveoPvss.FirstRepeatedIndexSpec | ferveo/src/pvss.rs:271 | the left-to-right scan finds nothing iff the indices are distinct and unseen, and otherwise returns an index that occurs twice |
| FerveoPvss.CheckSharesOutcome | ferveo/src/pvss.rs:279-291 | Ok(true) iff every validator's share verifies; otherwise the outcome is that of the first validator whose check is not Ok(true) |
| FerveoPvss.DoVerifyFull | ferveo/src/pvss.rs:264-292 | duplicate indices are rejected first, then the loop returns the first error or Ok(false), and Ok(true) when all pass |
| FerveoPvss.DealtPassesFull | ferveo/src/pvss.rs:264-292 | completeness: a transcript dealt to validators at their own positions passes the full check |
| FerveoPvss.VerifiedShareMatchesCommitment | ferveo/src/pvss.rs:264-292 | soundness: after a passing full check, every validator's share is its key times the FFT of the commitments at its index, which is the commitment polynomial at its domain element when the commitments fit the domain |
| FerveoPvss.OverlongCommitmentsIgnored | ferveo/src/pvss.rs:229-236 | with at least as many commitments as domain elements, commitments appended to them do not change the full check's outcome |
| FerveoPvss.AddAssign | ferveo/src/pvss.rs:547-554 | `*a += b` over the zipped elements, in place |
| FerveoPvss.AggregateNonEmpty | ferveo/src/pvss.rs:537-563 | the loop leaves coeffs, shares and sigma equal to the element-wise sums over all transcripts, with the first transcript's lengths |
| FerveoPvss.Aggregate | ferveo/src/pvss.rs:530-564 | `NoTranscriptsToAggregate` iff the list is empty, otherwise the element-wise sum; a length mismatch panics in `zip_eq` |
| FerveoPvss.AggregateOfDealtIsDealt | ferveo/src/pvss.rs:530-564 | aggregation is homomorphic: the sum of transcripts dealt from phi_1..phi_n is the transcript dealt from phi_1 + ... + phi_n |
| FerveoPvss.SumsAreDealt | ferveo/src/pvss.rs:530-564 | an aggregate whose columns are the sums of dealt transcripts is the transcript dealt from the sum of their polynomials |
| FerveoPvss.AggregatedPublicKeyIsSumOfSecrets | ferveo/src/pvss.rs:516-524 | the public key of an aggregate of dealt transcripts is g times the sum of the dealt secrets |
| FerveoPvss.FromTranscripts | ferveo/src/pvss.rs:509-524 | aggregate, then take coeffs[0] as the public key: the sum of the transcripts' constant-term commitments |
| FerveoPvss.DoVerifyAggregation | ferveo/src/pvss.rs:294-322 | never Ok(false); Ok(true) iff the full check passes and Σ coeffs[0] equals the aggregate's; full-check errors propagate and a failed full check is `InvalidTranscriptAggregate` |
| FerveoPvss.AggregateOfDealtVerifies | ferveo/src/pvss.rs:294-322 | completeness: the aggregate of dealt transcripts passes the full check and its constant term is the sum of theirs |
| FerveoPvss.Refresh | ferveo/src/pvss.rs:399-449 | over the radix-2 domain for the number of shares, every update transcript must pass `verify_refresh`; coefficients, sigma and the share count are kept, and share i is the updated blinded share of validator i |
| FerveoPvss.Handover | ferveo/src/pvss.rs:451-490 | over the radix-2 domain for the number of shares, only `shares[share_index]` is replaced, by the finalized FFT of the commitments at that index, which is the commitment polynomial at that domain element when the commitments fit; coefficients, sigma and every other share are unchanged |
| FerveoPvss.HandedOverShareVerifies | ferveo/src/pvss.rs:451-490 | after an honest handover (the key times the FFT of the commitments at the index) the incoming validator's share verifies and every other validator's check is unchanged |
| FerveoPvss.BlindedShareUnblinds | ferveo/src/pvss.rs:346-362 | a validator's dealt blinded share, unblinded with the inverse of its decryption key, is h·phi(x) |
| VssPvss.NewTranscript | ferveo/src/vss/pvss.rs:87-131 | always Ok: `shares_num - security_threshold + 1` commitments with coeffs[0] = g·s and sigma = h·s, one share per validator, dealt from the drawn polynomial with constant term s through the FFT over the domain (which drops the top coefficient when the polynomial is longer than the domain, as with security threshold 0 and a power-of-two shares_num); when it fits, each share is the key times the polynomial at the validator's domain element |
| VssPvss.PairsVerifyAll | ferveo/src/vss/pvss.rs:162-182 | the short-circuiting `all` holds iff every zipped (validator, share) pair verifies; the zip truncates to the shorter list |
| VssPvss.AllPairsDefined | ferveo/src/vss/pvss.rs:162-182 | when every pair names a commitment, the check reads nothing out of range |
| VssPvss.VerifyFullOld | ferveo/src/vss/pvss.rs:155-183 | `verify_full` holds iff every zipped (validator, share) pair verifies against the FFT of the commitments over the domain |
| VssPvss.DealtPassesFullOld | ferveo/src/vss/pvss.rs:155-183 | completeness: a dealt transcript passes `verify_full`, whatever the polynomial's length, since dealing and checking cut it to the domain alike |
| VssPvss.VerifyAggregationOld | ferveo/src/vss/pvss.rs:192-214 | as written: Ok(number of stored transcripts) iff Σ coeffs[0] of the stored transcripts equals the aggregate's coeffs[0]; the full check's result plays no part |
| VssPvss.AggregationIgnoresFullCheck | ferveo/src/vss/pvss.rs:197 | an aggregate whose only share fails check #4 but whose constant term matches is rejected by `verify_full` and accepted by `verify_aggregation` |
| VssPvss.VerifyAggregationChecked | ferveo/src/vss/pvss.rs:192-214 | corrected: Ok iff the full check passes and the constant terms match |
| VssPvss.DecryptPrivateKeyShare | ferveo/src/vss/pvss.rs:216-229 | the share at the validator's position times the inverse key; an index past the shares or a zero key panics |
| VssPvss.DecryptedShareIsEvaluation | ferveo/src/vss/pvss.rs:216-229 | a validator decrypts its dealt share to h times the FFT of phi at its share index |
| VssPvss.DecryptedShareOfFittingPolynomial | ferveo/src/vss/pvss.rs:216-229 | when phi fits the domain, a validator decrypts its dealt share to h·phi at its domain element |
| VssPvss.AggregateStored | ferveo/src/vss/pvss.rs:329-362 | the element-wise sum of the stored transcripts in key order; its constant term is Σ coeffs[0]; an empty store panics |
| FerveoDkg.NewDkgParams | ferveo/src/dkg.rs:32-51 | Ok iff 1 <= security_threshold <= shares_num, storing tau, security_threshold and shares_num unchanged; otherwise `InvalidDkgParameters(shares_num, security_threshold)` |
| EvaluationDomain.DomainSize | ferveo/src/dkg.rs:96-99 | the radix-2 domain for n points has a power-of-two size at least n and below 2n (size 1 for no points) |
| EvaluationDomain.Fft | ferveo/src/pvss.rs:229-236 | one entry per domain element; a vector no longer than the domain is evaluated as a polynomial at every element |
| EvaluationDomain.FftIgnoresTail | ferveo/src/refresh.rs:321-323 | `fft_in_place` cuts the vector to the domain's size: entries past it take no part |
| EvaluationDomain.FftOfLongVectorIsNotEvaluation | ferveo/src/pvss.rs:229-236 | a vector longer than the domain is not evaluated: [-2, 1] over [1] gives [-2], while -2 + x is -1 at 1 |
| FerveoDkg.ByShareIndexKeys | ferveo/src/dkg.rs:101-104 | the map's keys are the share indices of the list, and each entry is a listed validator stored under its own index |
| FerveoDkg.ByShareIndexKeepsAll | ferveo/src/dkg.rs:101-104 | with distinct indices every validator is kept unchanged under its index, one entry each |
| FerveoDkg.NewDkgSpec | ferveo/src/dkg.rs:89-121 | success iff the share indices are distinct and `me` is listed with its key; otherwise `DuplicatedShareIndex`, then `DealerNotInValidatorSet`, then `ValidatorPublicKeyMismatch`, in that order; on success every validator is stored under its index |
| FerveoDkg.FindByKey | ferveo/src/dkg.rs:127-129 | the first position holding the key, or none iff no validator has it |
| FerveoDkg.GetValidatorSpec | ferveo/src/dkg.rs:124-131 | a validator is found iff some validator has the key; the one found has it and no validator at a smaller share index does |
| FerveoDkg.DomainPoints | ferveo/src/dkg.rs:164-166 | a prefix of the domain, of length `validators.len()` in a well-formed context |
| FerveoDkg.GetDomainPoint | ferveo/src/dkg.rs:155-160 | Ok iff the index is below `validators.len()`, with the domain element at that index; `InvalidShareIndex(i)` otherwise |
| FerveoDkg.DomainPointMap | ferveo/src/dkg.rs:169-175 | keys exactly 0..n-1, each mapped to its domain element |
| FerveoDkg.ValuesHaveDistinctIndices | ferveo/src/dkg.rs:183-189 | the validators in key order carry their keys as share indices, hence distinct ones |
| FerveoDkg.DomainAndKeyMapSpec | ferveo/src/dkg.rs:179-190 | keys exactly the validators' share indices, each with its domain element and public key |
| FerveoDkg.ByShareIndexOfWellFormed | ferveo/src/dkg.rs:101-104 | grouping the validators of a context by share index gives back its validator map |
| FerveoDkg.VerifyTranscripts | ferveo/src/dkg.rs:193-225 | the loop succeeds iff the batch is admitted, and otherwise returns the error admission names |
| FerveoDkg.AdmitInOrder | ferveo/src/dkg.rs:199-222 | admitted iff each message passes against the senders and transcripts before it and the accepted senders do not outnumber the validators |
| FerveoDkg.AdmissibleInOrderIsAll | ferveo/src/dkg.rs:199-213 | passing step by step is the same as every message passing on its own with no repeated address or transcript |
| FerveoDkg.AdmitSpec | ferveo/src/dkg.rs:193-225 | admitted iff every message is admissible (known index, new address, new transcript, optimistic check) and there are at most as many messages as validators |
| FerveoDkg.AdmitRejectsTooMany | ferveo/src/dkg.rs:215-222 | admissible messages outnumbering the validators are rejected with `TooManyTranscripts(validators, senders)` |
| FerveoDkg.AdmitInOrderTooMany | ferveo/src/dkg.rs:215-222 | admissible messages that, with the senders already accepted, outnumber the validators end in `TooManyTranscripts(validators, senders)` once all are accepted |
| FerveoDkg.AggregateTranscripts | ferveo/src/dkg.rs:142-152 | verification runs first and its error propagates; an admitted non-empty batch gives the element-wise aggregate with the sum of constant terms as key; an empty one `NoTranscriptsToAggregate` |
| FerveoDkg.GenerateTranscript | ferveo/src/dkg.rs:134-139 | always Ok: `security_threshold` commitments, one share per validator, dealt from a fresh secret at the context's domain points |
| FerveoDkg.VerifyFullInDkg | ferveo/src/pvss.rs:215-224 | the full check on the context's validators in share-index order and its domain |
| FerveoDkg.VerifyAggregation | ferveo/src/pvss.rs:330-344 | never Ok(false); Ok(true) iff the full check passes and the constant terms match |
| FerveoDkg.CanonicalAtOwnPositions | ferveo/src/dkg.rs:164-175 | in a context numbered 0..n-1 the j-th validator in key order holds index j and the j-th domain point |
| FerveoDkg.DealtRoundVerifies | ferveo/src/pvss.rs:330-344 | transcripts dealt in a canonical context and aggregated pass `verify_aggregation`, and the aggregate key commits to the sum of the dealt secrets |
| FerveoDkg.GenerateRefreshTranscript | ferveo/src/dkg.rs:229-238 | always Ok: `security_threshold` commitments with a zero constant term, an update for every validator at its domain point and key |
| DkgPv.FindAddress | ferveo/src/dkg/pv.rs:46-52 | the first position holding the address, or none iff the address is not listed |
| DkgPv.Window | ferveo/src/dkg/pv.rs:57-58 | the window starts at the multiple of retry_after at or below 2·me and lasts retry_after blocks |
| DkgPv.WindowsOfRetryTwo | ferveo/src/dkg/pv.rs:57-58 | with retry_after = 2 the validator at position i owns the window (2i, 2i+2) |
| DkgPv.NextBlockSpec | ferveo/src/dkg/pv.rs:83-104 | outside Sharing, or once the own transcript is stored, nothing changes and the advice is Wait; otherwise the state stays Sharing with the same count and Issue is advised exactly when the counter lands on the window's first block |
| DkgPv.FirstIssueAtWindowStart | ferveo/src/dkg/pv.rs:83-104 | counting up to the window's start the scheduler says Wait every block and Issue at the window's first block |
| DkgPv.ReissueAfterWindow | ferveo/src/dkg/pv.rs:83-104 | once the window has passed the scheduler advises Issue again and restarts at the window's first block |
| DkgPv.PvDkg.constructor | ferveo/src/dkg/pv.rs:59-76 | a fresh participant in `Sharing{0, 0}` with no transcripts, storing params, validators, the radix-2 domain for shares_num points, position and window |
| DkgPv.PvDkg.IncreaseBlock | ferveo/src/dkg/pv.rs:83-104 | the new state and advice are one scheduler step; nothing else changes and the invariant is kept |
| DkgPv.PvDkg.Share | ferveo/src/dkg/pv.rs:109-121 | Ok iff the state is Sharing or Dealt, then a Deal whose transcript is dealt from the drawn secret to every validator; otherwise the wrong-state error |
| DkgPv.PvDkg.AggregateMessage | ferveo/src/dkg/pv.rs:124-146 | Ok iff Dealt, then an Aggregate holding the element-wise sum of the stored transcripts and the final key, the sum of their constant terms |
| DkgPv.PvDkg.VerifyMessage | ferveo/src/dkg/pv.rs:151-191 | a Deal while sharing or dealt passes iff its sender is known, has no stored transcript and it passes the optimistic check, with UnknownDealer and RepeatDealer(position) for the first two failures; an Aggregate once dealt passes iff constant terms match, enough transcripts are stored and the announced key is the final key; any other pairing is the wrong-state error |
| DkgPv.PvDkg.ApplyMessage | ferveo/src/dkg/pv.rs:196-226 | a Deal from a known sender overwrites the transcript at its position without a repeat check and, while sharing, counts it and moves to Dealt at shares_num − security_threshold; an Aggregate once dealt moves to Success with the final key; errors change nothing |
| DkgPv.NewPvDkg | ferveo/src/dkg/pv.rs:33-77 | a missing domain fails first (a present one is the radix-2 domain for shares_num points); then Ok iff `me` is in the validator set by address, at the first such position and its window, with an empty transcript map in `Sharing{0, 0}` |
| DkgPv.DealtTranscriptAccepted | ferveo/src/dkg/pv.rs:158-168 | a transcript dealt honestly by a known dealer with no stored transcript passes the Deal check |
| DkgPv.OwnAggregationAccepted | ferveo/src/dkg/pv.rs:172-187 | the participant's own aggregation passes the Aggregate check once enough transcripts are stored |
| FerveoApi.FromString | ferveo/src/api.rs:113-126 | Ok iff the string is the name `as_str` gives some variant, and then that variant; otherwise `InvalidVariant` carrying the string |
| FerveoApi.VariantRoundTrip | ferveo/src/api.rs:113-126 | parsing a variant's name gives the variant back |
| FerveoApi.PublicKeyToBytes | ferveo/src/api.rs:154-157 | always 48 bytes |
| FerveoApi.PublicKeyFromBytes | ferveo/src/api.rs:159-174 | any length other than 48 is `InvalidByteLength(48, len)`; 48 bytes that are not a point are a deserialisation error; otherwise the decoded point |
| FerveoApi.PublicKeyRoundTrip | ferveo/src/api.rs:154-170 | a key written out and read back is the same key, for a point codec that round-trips |
| FerveoApi.NewApiDkg | ferveo/src/api.rs:205-220 | bad parameters fail first with `InvalidDkgParameters`; Ok iff the parameters are valid, the share indices distinct and `me` listed, then a well-formed context with those parameters and `me` |
| FerveoApi.NewAggregatedTranscript | ferveo/src/api.rs:251-259 | fails with `NoTranscriptsToAggregate` iff there are no messages; otherwise the element-wise aggregate of the transcripts in message order, with the sum of their constant terms as key |
| FerveoApi.Verify | ferveo/src/api.rs:261-301 | more messages than validators is `InvalidAggregateVerificationParameters` before any other check; a failing optimistic check `InvalidTranscriptAggregate`; never Ok(false); Ok(true) iff the full check against the senders passes and the constant term is the sum of the transcripts' constant terms |
| FerveoApi.AggregateOfDealtPassesAll | ferveo/src/api.rs:276-300 | the aggregate of dealt transcripts passes the optimistic, full and sum checks |
| FerveoApi.HonestAggregateVerifies | ferveo/src/api.rs:261-301 | the aggregate of transcripts each dealt to the senders at their own positions passes every check of `verify` |
| FerveoApi.SelectedDomainPoints | ferveo/src/api.rs:312-320 | keys exactly the selected share indices that have a domain point, each mapped to its domain element |
| FerveoApi.SelectedDomainPointsOfWellFormed | ferveo/src/api.rs:312-320 | in a well-formed context exactly the selected indices below the number of validators are kept |
| FerveoApi.CombineSharesSimple | ferveo/src/api.rs:376-384 | the simple combination of the inner shares with the Lagrange coefficients at 0 of the shares' own domain points, in share order |
| FerveoApi.CombineSharesSimpleReconstructs | ferveo/src/api.rs:376-384 | honest shares at distinct points, at least as many as the polynomial has coefficients, combine to e(U, f(0)) |
| FerveoApi.TooFewSharesMissTheSecret | ferveo/src/api.rs:376-384 | a single honest share of a degree-1 polynomial does not combine to the shared secret |
| FerveoApi.CreateRecoveryUpdatesForDkg | ferveo/src/api.rs:398-419 | one update for each validator of the context, each the evaluation at its domain point of a polynomial vanishing at x_r, and each passing the update check against the validator's key |
| FerveoApi.CreateShareUpdatesForDkg | ferveo/src/api.rs:434-452 | the same with the root at 0, so the shared secret is unchanged |
| FerveoValidator.AddressFromStr | ferveo/src/validator.rs:25-32 | `InvalidLength` iff the string is not 42 UTF-8 bytes long; a parsed address holds the input string unchanged |
| FerveoValidator.ParseDisplayRoundTrip | ferveo/src/validator.rs:25-38 | displaying a parsed address gives back the input |
| FerveoValidator.AsciiHexAddressParses | ferveo/src/validator.rs:25-32 | 42 ASCII characters whose last 40 are hex digits parse, the first two never being inspected |
| FerveoValidator.NonHexTailRejected | ferveo/src/validator.rs:29-30 | a 42-byte ASCII string with a non-hex character after offset 2 is `InvalidHex` |
| FerveoValidator.CompareStringsEqual | ferveo/src/validator.rs:8-11 | the derived string order says Equal iff the strings are equal |
| FerveoValidator.CompareStringsFlip | ferveo/src/validator.rs:8-11 | swapping the operands flips the ordering |
| FerveoValidator.CompareStringsTransitive | ferveo/src/validator.rs:8-11 | Less is transitive |
| FerveoValidator.CompareValidatorsIgnoresKeyAndIndex | ferveo/src/validator.rs:58-63 | two validators compare Equal iff their addresses agree, whatever their keys and indices, and the order is antisymmetric |
| FerveoValidator.NewValidator | ferveo/src/validator.rs:66-77 | fails iff the address does not parse, with the same error; otherwise the parsed address with key and index unchanged |
| FerveoDebug.SplitWhitespace | ferveo/src/debug.rs:28 | every field is non-empty and holds no whitespace |
| FerveoDebug.SplitFromWord | ferveo/src/debug.rs:28 | a run of non-whitespace characters extends the field being read |
| FerveoDebug.SplitJoinRoundTrip | ferveo/src/debug.rs:28 | non-empty whitespace-free fields joined by spaces split back into the same fields |
| FerveoDebug.FromHex | ferveo/src/debug.rs:39-42 | decodes iff the string is an even number of hex digits, to half as many bytes |
| FerveoDebug.HexRoundTrip | ferveo/src/debug.rs:39-42 | hex-encoded bytes decode back to the bytes |
| FerveoDebug.CheckLineOrder | ferveo/src/debug.rs:28-67 | a wrong field count is reported first, then bad key hex, then bad transcript hex; a line is accepted iff it has three fields, both hex fields decode and the lengths are 42, 96 and 3784 bytes, and then the fields are the decoded parts |
| FerveoDebug.RecordLineAccepted | ferveo/src/debug.rs:28-67 | a line made of an address, a 96-byte key and a 3784-byte transcript in hex is accepted with exactly those fields |
| FerveoDebug.RecordOf | ferveo/src/debug.rs:69-77 | a record holds the parsed address and the decoded key and transcript |
| FerveoDebug.ReadLine | ferveo/src/debug.rs:27-77 | a line is rejected iff its checks fail, with their error; a record comes only from an accepted line |
| FerveoDebug.CollectStep | ferveo/src/debug.rs:27-80 | a rejected line aborts with its error, an undecodable one panics, a record is appended and reading goes on |
| FerveoDebug.ParseFile | ferveo/src/debug.rs:21-81 | Ok iff the lines read in order give records throughout, and then exactly those records; otherwise the first line's error |
| FerveoDebug.CollectRecords | ferveo/src/debug.rs:27-80 | collecting succeeds iff every outcome is a record, and then yields them in order |
| FerveoDebug.CollectStopsAtFirst | ferveo/src/debug.rs:27-80 | the first non-record outcome decides the result, whatever follows it |
| FerveoDebug.OneRecordPerLine | ferveo/src/debug.rs:21-81 | a parse succeeds iff every line reads as a record, and then has one record per line, in line order |
| FerveoDebug.FirstBadLineAborts | ferveo/src/debug.rs:29-67 | the first rejected line, after only accepted ones, aborts the parse with its error |
| FerveoDebug.UndecodableLinePanics | ferveo/src/debug.rs:73-75 | an accepted line that fails to decode, after only good lines, panics the parse |

## Left out

- The BLS12-381 curves, the pairing and the field arithmetic of arkworks: group elements are their discrete logarithms, so the model cannot express a failed subgroup or curve check.
- The internals of `GeneralEvaluationDomain` and `Radix2EvaluationDomain`, `fast_multiexp`, `normalize_batch` and `SubproductDomain`: the domain is a given sequence of elements of the radix-2 size (`EvaluationDomain.DomainSize`), which `FerveoDkg.NewDkg`, `DkgPv.NewPvDkg` (and `DkgPv.PvDkg.Valid`), `FerveoApi.Verify`, `FerveoPvss.Refresh` and `FerveoPvss.Handover` require of it; that they are the powers of a root of unity is not modelled, and `fft_in_place` is its result, the vector resized to the domain and evaluated at every element (`EvaluationDomain.Fft`), not the butterfly algorithm.
- Hash-to-curve, the ChaCha20-Poly1305 AEAD, `SecretBox` and the internals of the ciphertext validity check: the check is a predicate parameter, and its error is passed through unchanged.
- serde, bincode and `ark_serialize` beyond the explicit framing: point encoders and decoders are parameters, assumed to round-trip where a round trip is stated.
- Randomness (`thread_rng`, `UniformRand`, `DensePolynomial::rand`): the drawn values are parameters.
- Integer widths: `u32` and `usize` indices and counters are `nat`, so overflow of `accumulated_shares`, `block` or `shares_total` is not modelled. The 8-byte index prefix of `DecryptionShareFast` is modelled for indices below 2^64.
- Panics are preconditions rather than an error value: `zip_eq` length mismatches, `unwrap` on a missing entry, slices and indices out of range, the `assert!` of `setup` and `prepare_combine`, and a zero decryption key.
- `session_keypair` and `pvss_params` of the older DKG: stored but never read by the modelled operations.
- The `InsufficientValidators` branch of `PubliclyVerifiableSS::new` (ferveo/src/pvss.rs:172-177): its condition cannot hold after the shares are built one per validator, so `FerveoPvss.NewPvss` always succeeds.
- `create_decryption_share_simple` and `create_decryption_share_precomputed` on the aggregated transcript (ferveo/src/pvss.rs:365-397): they call key-share methods whose source is not part of this model.
- The api.rs wrappers `create_updated_private_key_share_for_recovery`/`_for_refresh`, `recover_share_from_updated_private_shares`, `into_private_key_share` and the byte codecs of the update types: thin forwards to ferveo/src/refresh.rs, which is modelled directly, or serde.
- File opening, read errors and `eprintln!` in ferveo/src/debug.rs: the parse works on the file's lines, given as a sequence.
- The debug reader's test module and the aggregation it drives.
- Zeroize-on-drop and every other memory-hygiene trait; `SecretPolynomial.Zeroize` models only the explicit call.
- The commented-out recovery tests of ferveo/src/refresh.rs.
- tpke/src/refresh.rs is not listed among the `mod` declarations of tpke/src/lib.rs, so it is not compiled; it is modelled with its own participant record.
- TpkeRefresh.RecoverShareAtPoint: tpke/src/refresh.rs:1 imports `crate::lagrange_basis_at`, which no file of the tpke crate defines; the model stands in the function of the same name from ferveo-tdec/src/combine.rs:30-45 (`TdecCombine.LagrangeBasisAt`).
- TpkeCombine.PrepareCombineCoefficient: relates the prepared factor to the target-0 Lagrange coefficient only for distinct points; for repeated points `batch_inversion` leaves a zero product unchanged, which `PrepareCombine` models but no lemma describes.
- DkgPv.PvDkg.VerifyMessage: the errors of ferveo/src/dkg/pv.rs are `anyhow!` strings; the model gives each its own variant, and the Aggregate branch keeps the aggregation check as written (see Findings).
- FerveoValidator.AddressFromStr: its contract states the length rule and what a parsed address holds; the hex rule is stated for ASCII strings by `AsciiHexAddressParses` and `NonHexTailRejected`, not for strings holding multi-byte characters.
- FerveoApi.PublicKeyToBytes: states only the 48-byte length; the bytes themselves are the point encoder's.
- FerveoDebug.SplitWhitespace: states only that the fields are non-empty and free of whitespace; `SplitJoinRoundTrip` states its content for joined fields.
- The Python bindings, the benchmarks and the error enums and test factories of the two `lib.rs` files.

## Findings

| source | as written | input that shows it | evidently intended | confidence | as-written member | corrected member |
|---|---|---|---|---|---|---|
| ferveo-tdec/src/context.rs:81 | the precomputed share takes the Lagrange coefficient at position `self.index` of the selection | contexts at points 1 and 2 holding f(x) = 5 + x, selection [1, 0]: the two shares combine to e(U, 8) | the coefficient at the participant's own position in the selection, so that any selection order combines to e(U, f(0)) = e(U, 5) | not executed | TdecContext.SelectionOrderBreaksReconstruction | TdecContext.CorrectedSharesReconstruct |
| ferveo/src/refresh.rs:317-323 | `verify_recovery` matches the updates against the FFT of the coefficient commitments, which `fft_in_place` cuts to the domain's size, but checks the root against all of them; their number is never checked | one-element domain [1], root 2, coefficient commitments [-2, 1] and one update with commitment -2 and update -2 for key 1: every check passes, while -2 + x is -1 at 1 and the cut polynomial -2 is not 0 at 2 | more commitments than domain elements is rejected, so that an accepted update commitment is the committed polynomial's value and the updates follow a polynomial vanishing at the root | not executed | FerveoRefresh.RecoveryAcceptsOverlongCommitments | FerveoRefresh.VerifyRecoveryChecked |
| ferveo/src/vss/pvss.rs:197 | `verify_aggregation` calls `verify_full` and drops its result | one validator at domain point 1, aggregate with commitment [1], share 5 and sigma 1, one stored transcript with commitment [1]: the share fails check #4 yet the aggregation is accepted | an aggregate is accepted only if the full check passes and the constant terms match, as the newer ferveo/src/pvss.rs:294-322 does | not executed | VssPvss.AggregationIgnoresFullCheck | VssPvss.VerifyAggregationChecked |
