/** Option and Result, the two failure-carrying datatypes the model uses. */
module Wrappers {
  /** Python's `None` or a present value. */
  datatype Option<T> = None | Some(value: T)

  /** A value, or the exception that interrupted the computation of it. */
  datatype Result<T, E> = Success(value: T) | Failure(error: E)
}
