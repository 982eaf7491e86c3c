/** The crate's error enum and the `Result` / `Option` shapes its API returns. */
module Errors {

  /** `StrobeError`. The `NtHashError` variant wraps a failure of the foreign
      rolling-hash library; its payload is not modelled. */
  datatype StrobeError =
    | OrderNotSupported
    | InvalidOrder
    | InvalidSequence
    | SequenceTooShort
    | StrobeLengthTooSmall
    | InvalidWindowOffsets
    | IncompleteHashValues
    | PrimeNumberTooSmall
    | NtHashError

  datatype Result<T> = Ok(value: T) | Err(error: StrobeError)

  datatype Option<T> = None | Some(value: T) {
    function UnwrapOr(default: T): T
    {
      if Some? then value else default
    }
  }
}
