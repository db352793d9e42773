/** Failure-carrying results used in place of the source's thrown `Error`s. */
module Wrappers {

  /** A value that may be absent, used for request fields the caller may omit. */
  datatype Option<+T> = None | Some(value: T)

  /** Either a computed value or the error the operation threw. */
  datatype Result<+T, +E> = Success(value: T) | Failure(error: E)

  /** The outcome of a check that returns nothing on success. */
  datatype Outcome<+E> = Pass | Fail(error: E)
}
