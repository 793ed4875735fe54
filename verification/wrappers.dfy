/** Option and Result, used for Python's `None` and for the `ValueError` raised by construction. */
module Wrappers {

  /** `None` stands for Python's `None` (an absent node). */
  datatype Option<+T> = None | Some(value: T)

  /** Outcome of an operation that can raise: `Failure` carries the error. */
  datatype Result<+R, +E> = Success(value: R) | Failure(error: E)
}
