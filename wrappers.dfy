/** Optional values and results: Python's None and raised exceptions, as values. */
module Wrappers {

  /** A value that may be missing: a pandas null (None, NaN, NaT) or a Python None. */
  datatype Option<+T> = None | Some(value: T)

  /** The outcome of a call that either returns a value or raises an exception. */
  datatype Result<+R, +E> = Ok(value: R) | Err(error: E)
}
