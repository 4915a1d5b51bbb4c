/** The optional value and the success-or-failure result used across the model. */
module Wrappers {
  /** JavaScript `null` / Python `None`, or a value. */
  datatype Option<+T> = None | Some(value: T)

  /** A computed value, or the error the source would raise. */
  datatype Result<+R, +E> = Success(value: R) | Failure(error: E)
}
