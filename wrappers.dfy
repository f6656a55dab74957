/** Failure-carrying wrappers shared by the model. */
module Wrappers {
  datatype Option<+T> = None | Some(value: T)

  /** The outcome of an operation that raises in the source: a value or the exception. */
  datatype Result<+T, +E> = Ok(value: T) | Err(error: E)
}
