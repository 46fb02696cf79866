/** Failure-compatible result types shared by the model. */
module Wrappers {

  /** An optional value: the model's stand-in for a lookup that may find nothing. */
  datatype Option<+T> = None | Some(value: T)

  /** Either a value or an error, for operations of the source that can fail. */
  datatype Result<+R, +E> = Success(value: R) | Failure(error: E)
}
