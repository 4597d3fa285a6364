/** Reasons the Hub contract gives for refusing a message; texts that only explain are dropped. */
module Errors {
  datatype ContractError =
    | SubscriptionNotFound(id: nat)
    | SubscriptionNotActive(id: nat)
    | SubscriptionExpired(id: nat)
    | EmptyKeyPath
    | EmptyCallbackContract
    | EmptyWatchKey
    | KeyMismatch
    | ValueMismatch
    | ThresholdNotMet
    | ValueDecodeError
    | ProofVerificationFailed
    | ProtoDecode
    | Overflow  // checked arithmetic panics, which aborts the call
}
