/** Optional values and results with an error, shared by every part of the model. */
module Wrappers {

  /** A value that may be absent: a missing dictionary key, a missing page element. */
  datatype Option<+T> = None | Some(value: T)

  /** The outcome of a step that may raise an exception in the source. */
  datatype Result<+T, +E> = Ok(value: T) | Err(error: E)
}
