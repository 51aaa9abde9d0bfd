/** Optional values and error results shared by every module of the model. */
module Wrappers {

  /** A Java reference that may be `null`. */
  datatype Option<+T> = None | Some(value: T)

  /** A value, or the exception the Java code would throw instead. */
  datatype Result<+T, +E> = Ok(value: T) | Err(error: E)
}
