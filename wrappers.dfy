/** Option and Result, shared by the model. */
module Wrappers {

  /** A value that may be absent: PHP's `null` for a missing parameter or an empty lookup. */
  datatype Option<+T> = None | Some(value: T)

  /** A value or an error. */
  datatype Result<+R, +E> = Success(value: R) | Failure(error: E)
}
