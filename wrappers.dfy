/** Failure-carrying datatypes standing in for Python's `None` and raised exceptions. */
module Wrappers {

  /** `Optional[T]`: `None` or a value. */
  datatype Option<+T> = None | Some(value: T)

  /** The value of an operation that returns something or fails. */
  datatype Result<+T, +E> = Success(value: T) | Failure(error: E)

  /** The value of an operation that returns nothing or fails. */
  datatype Outcome<+E> = Pass | Fail(error: E)
}
