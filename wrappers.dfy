/** Optional values and error returns: Python's `None` and raised exceptions. */
module Wrappers {

  /** A value that may be Python's `None` (or a key that `dict.get` does not find). */
  datatype Option<+T> = None | Some(value: T)

  /** A computed value, or the exception the computation raises. */
  datatype Result<+R, +E> = Ok(value: R) | Err(error: E)

  /** A call that returns nothing on success, or the exception it raises. */
  datatype Outcome<+E> = Pass | Fail(error: E)
}
