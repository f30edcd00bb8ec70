/** Optional values and error-carrying results shared by the other modules. */
module Wrappers {
  /** A field that may be absent (JavaScript `undefined`/`null`). */
  datatype Option<T> = None | Some(value: T)

  /** The outcome of an operation that may raise. */
  datatype Result<T> = Ok(value: T) | Err(error: string)
}
