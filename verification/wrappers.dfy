/** Option and Result values standing for the source's missing attributes and fatal exits. */
module Wrappers {

  datatype Option<+T> = None | Some(value: T)

  /** A computation that either succeeds with a value or aborts the run with an error. */
  datatype Result<+R, +E> = Success(value: R) | Failure(error: E)

  /** A computation that either completes or aborts the run with an error. */
  datatype Outcome<+E> = Pass | Fail(error: E)
}
