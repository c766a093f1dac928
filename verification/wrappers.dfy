/** Failure-carrying result types used by the shortest-path engine. */
module Wrappers {

  /** A value that may be absent; Ruby's `nil` becomes `None`. */
  datatype Option<+T> = None | Some(value: T)

  /** Either a value or the error that a Ruby call would have raised. */
  datatype Result<+T, +E> = Success(value: T) | Failure(error: E)
}
