/** Optional values and the outcome of a call that may raise. */
module Wrappers {
  /** A missing table cell, an absent node attribute. */
  datatype Option<+T> = None | Some(value: T)

  /** What a library call produced: its value, or the message of the exception it raised. */
  datatype Outcome<+T> = Ok(value: T) | Raised(message: string)
}
