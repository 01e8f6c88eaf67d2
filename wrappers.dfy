/** Failure-carrying values used in place of Python's missing keys and exceptions. */
module Wrappers {

  /** A value that may be absent: `None` stands for a dictionary key that is not there. */
  datatype Option<+T> = None | Some(value: T)

  /** The value a computation returns, or the exception it raises. */
  datatype Result<+T, +E> = Ok(value: T) | Err(error: E)
}
