/** Failure-carrying values used in place of Kotlin's nullable types and
    Java's exceptions. */
module Wrappers {

  /** A Kotlin `T?`: either nothing or a value. */
  datatype Option<+T> = None | Some(value: T)

  /** The outcome of a call that may throw: a value, or the exception it threw. */
  datatype Result<+T, +E> = Ok(value: T) | Err(error: E)
}
