/** Failure-carrying values shared by every module of the model. */
module Wrappers {

  /** `None` stands for a Python `None` or for a call that raised. */
  datatype Option<+T> = None | Some(value: T)

  /** The outcome of a computation that may raise an exception escaping to its caller. */
  datatype Result<+T, +E> = Ok(value: T) | Err(error: E)
}
