/** Option and Result, shared by every module of the model. */
module Wrappers {

  /** A value that may be absent: JavaScript's `undefined`/`null` on the one hand, a value on the other. */
  datatype Option<+T> = None | Some(value: T)

  /** The outcome of an operation that either returns a value or throws an error carrying a message. */
  datatype Result<+R, +E> = Success(value: R) | Failure(error: E)
}
