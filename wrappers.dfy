/** Option and Result values used for the source's `null`, `Infinity` and thrown errors. */
module Wrappers {

  /** `None` stands for JavaScript's `null`, `undefined` or `Infinity`, depending on the caller. */
  datatype Option<+T> = None | Some(value: T)

  /** `Failure` stands for an `Error` thrown by the source. */
  datatype Result<+R, +E> = Success(value: R) | Failure(error: E)
}
