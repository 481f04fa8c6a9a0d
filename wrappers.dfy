/** Option, Result and Outcome: the model's stand-ins for Python's `None`
    and for operations that either return or raise. */
module Wrappers {

  datatype Option<+T> = None | Some(value: T)

  /** The outcome of an operation that returns a value or raises. */
  datatype Result<+R, +E> = Success(value: R) | Failure(error: E)

  /** The outcome of an operation that returns nothing or raises. */
  datatype Outcome<+E> = Pass | Fail(error: E)
}
