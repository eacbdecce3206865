/** Optional values and results for operations that can fail (a thrown error in the source). */
module Wrappers {

  /** A value that may be absent: the source's `T | null`. */
  datatype Option<+T> = None | Some(value: T)

  /** The outcome of an operation that either returns or throws an Error with a message. */
  datatype Result<+T> = Ok(value: T) | Err(message: string)
}
