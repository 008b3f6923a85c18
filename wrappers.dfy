/** Option and Result, for values that may be absent and calls that may raise. */
module Wrappers {

  /** Python's `None` or a present value. */
  datatype Option<+T> = None | Some(value: T)

  /** The outcome of a call that either returns or raises. */
  datatype Result<+R, +E> = Success(value: R) | Failure(error: E)
}
