/** Failure-compatible wrappers shared by the inventory model. */
module Wrappers {

  /** A value that may be missing: a Python `None` or an absent dictionary key. */
  datatype Option<+T> = None | Some(value: T)

  /** The outcome of an operation that either yields a value or raises an exception. */
  datatype Result<+T, +E> = Ok(value: T) | Err(error: E)
}
