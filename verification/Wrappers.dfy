/** The result types shared by every module: an optional value and a value-or-error. */
module Wrappers {

  datatype Option<+T> = None | Some(value: T)

  /** Why an operation of the enclave fails.  `Panicked` marks the places where the program aborts
      instead of returning an error. */
  datatype Error =
    | BadHex
    | BadLength
    | NoSuchFile
    | Undecodable
    | SlashableBlock
    | SlashableAttestation
    | NotSlashableKind
    | PublicKeyMismatch
    | NotEnoughShares
    | DepositSignatureInvalid
    | DepositDataRootInvalid
    | SessionRejected
    | NoShareForGuardian
    | Panicked

  /** The failure-compatible result type: `:-` propagates an `Err`. */
  datatype Result<+T> = Ok(value: T) | Err(error: Error) {
    predicate IsFailure() {
      Err?
    }

    function PropagateFailure<U>(): Result<U>
      requires Err?
    {
      Err(error)
    }

    function Extract(): T
      requires Ok?
    {
      value
    }
  }
}
