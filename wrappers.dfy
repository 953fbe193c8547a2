/** Optional values and results with an error, as the tables and statements need them. */
module Wrappers {

  /** A nullable column or a lookup that may find nothing. */
  datatype Option<+T> = None | Some(value: T)

  /** A statement that either completes with a value or fails with an error. */
  datatype Result<+T, +E> = Success(value: T) | Failure(error: E)
}
