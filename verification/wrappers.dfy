/** Option and Result, used across the model. */
module Wrappers {

  /** A value that may be absent: a file whose text could not be read, an
      ignore list the caller did not pass, a root path that does not exist. */
  datatype Option<+T> = None | Some(value: T)

  /** The outcome of an operation that can fail with an error value. */
  datatype Result<+R, +E> = Success(value: R) | Failure(error: E)
}
