/** Outcome types used in place of Python's `None` and exceptions. */
module Wrappers {

  datatype Option<T> = None | Some(value: T)

  /** The result of a call that either returns a value or raises an error. */
  datatype Result<T, E> = Success(value: T) | Failure(error: E)
}
