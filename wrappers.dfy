/** Option, Outcome and Result: the PHP `null` type marker and the thrown
    exception become values the caller inspects. */
module Wrappers {

  datatype Option<+T> = None | Some(value: T)

  /** The result of an operation that returns nothing on success (`void`). */
  datatype Outcome<+E> = Pass | Fail(error: E)

  /** The result of an operation that returns a value on success. */
  datatype Result<+R, +E> = Success(value: R) | Failure(error: E)
}
