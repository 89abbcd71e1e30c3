/** Failure-carrying values shared by the schedule store and the student form. */
module Wrappers {

  /** Python's `None` or a value. */
  datatype Option<+T> = None | Some(value: T)

  /** A call that either returns a value or raises `ValueError(message)`. */
  datatype Result<+T> = Ok(value: T) | Err(message: string)
}
