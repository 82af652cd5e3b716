/** Failure-carrying results shared by the modules of this model. */
module Wrappers {

  /** A value that may be absent, in place of a Java `null`. */
  datatype Option<+T> = None | Some(value: T)

  /** Either a value or the error that prevented producing it. */
  datatype Result<+T, +E> = Success(value: T) | Failure(error: E)
}
