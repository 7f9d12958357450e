/** Success/failure wrappers used for the exceptions the modelled code raises. */
module Outcomes {

  /** An optional argument: Python's `None` or a value. */
  datatype Option<T> = None | Some(value: T)

  /** The value of a call that either returns or raises. */
  datatype Result<T, E> = Ok(value: T) | Err(error: E)
}
