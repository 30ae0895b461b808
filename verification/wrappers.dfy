/** The two shapes a provider call can come back in: a value that may be
    absent, and a value or an error. */
module Wrappers {

  /** A value that may be absent (a nil pointer in the modelled program). */
  datatype Option<+T> = None | Some(value: T)

  /** Either a value or the error that took its place. */
  datatype Result<+R, +E> = Success(value: R) | Failure(error: E)
}
