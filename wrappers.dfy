/** Option and Result, as the history model uses them. */
module Wrappers {

  /** A value that may be missing: Python's `None` versus a present value. */
  datatype Option<+T> = None | Some(value: T)

  /** A value or the error that the lookup raised instead. */
  datatype Result<+R, +E> = Success(value: R) | Failure(error: E)
}
