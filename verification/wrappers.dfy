/** Failure-carrying values used across the model: Go's `(value, error)` pairs
    and nil-able results are written with these. */
module Wrappers {

  /** Some/None, for Go values that may be nil and for Go's `error` (None is nil). */
  datatype Option<+T> = None | Some(value: T)

  /** A value or an error, for Go functions that return either one or the other. */
  datatype Result<+R, +E> = Success(value: R) | Failure(error: E)
}
