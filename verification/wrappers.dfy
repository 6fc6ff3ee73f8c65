/** Failure-carrying values shared by both sides of the codec. */
module Wrappers {

  /** A value that may be absent; Python's `None` and a Go error return both map to `None`. */
  datatype Option<+T> = None | Some(value: T)

  /** A value or the reason it could not be produced. */
  datatype Result<+T, +E> = Success(value: T) | Failure(error: E)
}
