/** Small failure-carrying wrappers shared by every module of the model. */
module Common {

  /** A value that may be absent (a JavaScript `undefined` field). */
  datatype Option<+T> = None | Some(value: T)

  /** The outcome of a step that can fail with a domain error. */
  datatype Result<+T, +E> = Ok(value: T) | Err(error: E)
}
