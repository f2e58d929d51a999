/** Failure-carrying datatypes used throughout the model: Python's `None`
    as an absent value, and an exception raised by an operation. */
module Wrappers {

  datatype Option<+T> = None | Some(value: T)

  datatype Result<+T, +E> = Success(value: T) | Failure(error: E)

  datatype Outcome<+E> = Pass | Fail(error: E)
}
