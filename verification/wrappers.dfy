/** Optional values and results, standing in for Java's null returns and thrown exceptions. */
module Wrappers {

  /** A value that may be absent (Java `null`). */
  datatype Option<+T> = None | Some(value: T)

  /** Either a normal return or an error. */
  datatype Result<+T, +E> = Ok(value: T) | Err(error: E)
}
