/** Optional values and results, standing for Python's None and for exceptions. */
module Wrappers {

  /** A value that may be absent (Python's None). */
  datatype Option<+T> = None | Some(value: T)

  /** The outcome of an operation that may raise: a value or the error text. */
  datatype Result<+R, +E> = Ok(value: R) | Err(error: E)
}
