/** Failure-carrying results shared by the helper modules. */
module Wrappers {

  /** A value that may be absent: Ruby's `nil`, an exhausted byte stream. */
  datatype Option<+T> = None | Some(value: T)

  /** The outcome of a helper that may raise: `Failure` carries the exception message. */
  datatype Result<+T, +E> = Success(value: T) | Failure(error: E)
}
