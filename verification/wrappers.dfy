/** Failure-carrying values shared by the other modules. */
module Wrappers {

  /** A value that may be absent: an unmatched regular expression, a dismissed prompt. */
  datatype Option<+T> = None | Some(value: T)

  /** A computation that either produces a value or stops with an error. */
  datatype Result<+T, +E> = Success(value: T) | Failure(error: E)
}
