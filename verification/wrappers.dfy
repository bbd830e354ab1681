/** Failure-carrying result types shared by the driver model. */
module Wrappers {

  /** A value that may be absent, as a dictionary lookup that may miss. */
  datatype Option<+T> = None | Some(value: T)

  /** Either the value an operation produced or the error it raised. */
  datatype Result<+R, +E> = Success(value: R) | Failure(error: E)
}
