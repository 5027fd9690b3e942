/** Failure-carrying result types shared by the whole model. */
module Wrappers {

  /** A value that may be absent (Python's `None`). */
  datatype Option<+T> = None | Some(value: T)

  /** The outcome of an operation that can raise: `Failure` carries the message
      the raised exception would have carried. */
  datatype Result<+R, +E> = Success(value: R) | Failure(error: E)
}
