/** Option and Result, used for JavaScript's `undefined` and for thrown errors. */
module Wrappers {

  /** `None` stands for JavaScript's `undefined`. */
  datatype Option<+T> = None | Some(value: T)

  /** `Failure` stands for an exception thrown out of an async operation. */
  datatype Result<+R, +E> = Success(value: R) | Failure(error: E)
}
