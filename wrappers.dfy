/** Option and Result: Python's None and raised exceptions, as values. */
module Wrappers {

  /** A value that may be Python's None. */
  datatype Option<+T> = None | Some(value: T)

  /** The outcome of a call that may raise: the exception's message on failure. */
  datatype Result<+T> = Success(value: T) | Failure(error: string)
}
