/** Failure-carrying wrappers shared by every module of the model. */
module Wrappers {

  /** JavaScript's `null` result, made explicit. */
  datatype Option<+T> = None | Some(value: T)

  /** A value, or the exception the JavaScript code would have thrown. */
  datatype Result<+T, +E> = Ok(value: T) | Err(error: E)
}
