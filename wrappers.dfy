/** Optional values and results with an error value, used across the model. */
module Wrappers {

  /** A value that may be absent (Python's None, SQL NULL, pandas' NaN). */
  datatype Option<+T> = None | Some(value: T)

  /** The outcome of an operation that can fail with an error of type E. */
  datatype Result<+T, +E> = Success(value: T) | Failure(error: E)
}
