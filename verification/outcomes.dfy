/** Failure-carrying wrappers shared by the store and the resolver. */
module Outcomes {

  /** An optional value: `None` when absent. */
  datatype Option<+T> = None | Some(value: T)

  /** The value of a computation that either succeeds or fails with an error. */
  datatype Result<+T, +E> = Ok(value: T) | Err(error: E)
}
