/** Wrappers for lookups that can miss and operations that can be refused. */
module Wrappers {

  /** The result of a lookup: `None` plays the part of Python's `None` from `next(..., None)`. */
  datatype Option<T> = None | Some(value: T)

  /** The outcome of an operation that either succeeds with a value or is refused with an error. */
  datatype Result<T, E> = Success(value: T) | Failure(error: E)
}
