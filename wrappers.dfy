/** The optional value and the value-or-error used across the model. */
module Wrappers {

  datatype Option<T> = None | Some(value: T)

  /** A value, or the exception that the modelled Python code raises instead. */
  datatype Result<T, E> = Ok(value: T) | Err(error: E)
}
