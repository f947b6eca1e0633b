/** Option, Result and Outcome: the error paths of the modelled members. */
module Wrappers {

  datatype Option<+T> = None | Some(value: T)

  /** A value or the exception the source throws instead of returning one. */
  datatype Result<+R, +E> = Success(value: R) | Failure(error: E)

  /** Completion of an operation that returns nothing, or the exception it throws. */
  datatype Outcome<+E> = Pass | Fail(error: E)
}
