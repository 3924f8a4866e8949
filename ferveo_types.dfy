/**
 * The error type of the ferveo crate (ferveo/src/lib.rs) and the result type
 * its fallible operations return.
 */
module FerveoTypes {
  import opened TdecTypes
  import opened FerveoValidator

  datatype Error =
    | ThresholdEncryptionError(tdecError: TdecError)
    | DealerNotInValidatorSet(dealer: EthereumAddress)
    | UnknownDealer(dealer: EthereumAddress)
    | DuplicateDealer(dealer: EthereumAddress)
    | InvalidPvssTranscript(dealer: EthereumAddress)
    | InsufficientValidators(expected: nat, got: nat)
    | InvalidTranscriptAggregate
    | ValidatorPublicKeyMismatch
    | BincodeError
    | ArkSerializeError
    | InvalidByteLength(expectedLength: nat, gotLength: nat)
    | InvalidVariant(variant: string)
    | InvalidDkgParameters(sharesNum: nat, threshold: nat)
    | InvalidShareIndex(shareIndex: nat)
    | InvalidShareUpdate
    | InvalidDkgParametersForPrecomputedVariant(sharesNum: nat, threshold: nat)
    | DuplicatedShareIndex(shareIndex: nat)
    | NoTranscriptsToAggregate
    | InvalidAggregateVerificationParameters(validatorsNum: nat, messagesNum: nat)
    | TooManyTranscripts(expected: nat, got: nat)
    | DuplicateTranscript(dealer: EthereumAddress)

  datatype Outcome<T> = Success(value: T) | Failure(error: Error)
}
