/** Failure-carrying wrappers used throughout the model. */
module Wrappers {

  datatype Option<+T> = None | Some(value: T)

  /** A Python call that either returns a value or raises an exception with a message. */
  datatype Result<+T, +E> = Success(value: T) | Failure(error: E)
}
