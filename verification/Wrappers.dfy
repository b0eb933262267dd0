/** Failure-carrying results shared by every layer of the model. */
module Wrappers {

  datatype Option<+T> = None | Some(value: T)

  datatype Result<+T, +E> = Ok(value: T) | Err(error: E)

  /** What a contract invocation yields. A value, an error the contract itself
      returns (which does not revert state), or a trap, on which the host rolls the
      whole invocation back. */
  datatype Outcome<+T, +E> = Done(value: T) | Rejected(error: E) | Trapped
}
