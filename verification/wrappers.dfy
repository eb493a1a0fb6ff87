/** Option and Result, the two shapes the canister's interface returns:
    `Option` for a lookup that may find nothing, and `Result` for an update
    that either succeeds with a value or is refused with a human-readable
    message. */
module Wrappers {

  /** Some/None, as returned by a lookup. */
  datatype Option<+T> = None | Some(value: T)

  /** Ok/Err, where the error is the plain message string the canister
      sends back to its caller. */
  datatype Result<+T> = Ok(value: T) | Err(error: string)
}
