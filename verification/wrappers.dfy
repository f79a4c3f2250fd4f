/** Option and Result datatypes shared by the booking model. */
module Wrappers {

  /** A value that may be absent: JavaScript's `null`/`undefined` results. */
  datatype Option<+T> = None | Some(value: T)

  /** Either a value or the reason an operation declined to produce one. */
  datatype Result<+R, +E> = Success(value: R) | Failure(error: E)
}
