/** Absent values and error returns, in place of JavaScript's `null`/`undefined` and thrown errors. */
module Wrappers {

  /** A value that may be missing (`null` or `undefined` in the source). */
  datatype Option<+T> = None | Some(value: T)

  /** The outcome of an operation that can fail: a rejected promise or an error passed to a callback. */
  datatype Result<+T, +E> = Success(value: T) | Failure(error: E)
}
