/** Failure-carrying wrappers shared by the modules of this model. */
module Wrappers {

  /** A value that may be absent: Go's nil pointer, a missing map entry. */
  datatype Option<+T> = None | Some(value: T)

  /** A value or an error; stands for Go's `(T, error)` pair when exactly one half is set. */
  datatype Result<+T, +E> = Ok(value: T) | Err(error: E)
}
