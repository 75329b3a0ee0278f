/** Failure-compatible wrappers shared by the modules of this model. */
module Wrappers {

  /** A Go value that may be nil: `None` is nil. */
  datatype Option<+T> = None | Some(value: T)

  /** The outcome of an external step: a value, or the error it reported. */
  datatype Result<+R, +E> = Success(value: R) | Failure(error: E)
}
