/** Optional values and results, as used throughout the model. */
module Wrappers {

  /** A value that may be absent: TypeScript's `T | null` (and `T | undefined`). */
  datatype Option<+T> = None | Some(value: T)

  /** The outcome of an operation that can fail with an error value. */
  datatype Result<+T, +E> = Ok(value: T) | Err(error: E)
}
