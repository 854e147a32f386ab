/** Failure-carrying result type used for the script's uncaught exceptions. */
module Wrappers {

  /** Either the computed value or the error that the script would raise. */
  datatype Result<+T, +E> = Ok(value: T) | Err(error: E)
}
