/** Option and Result, the two wrappers the memo-list model needs. */
module Wrappers {

  /** A value that may be absent: JavaScript's `null`/`undefined` next to an object. */
  datatype Option<+T> = None | Some(value: T)

  /** A computation that either yields a value or throws an exception. */
  datatype Result<+T, +E> = Ok(value: T) | Err(error: E)
}
