/** Results of operations that can throw: a value, or the exception thrown instead. */
module Outcomes {

  /** A value that may be absent (Java's `null`). */
  datatype Option<+T> = None | Some(value: T)

  /** A value, or the exception that was thrown instead. */
  datatype Result<+T, +E> = Ok(value: T) | Err(error: E)

  /** Java's `IllegalArgumentException`, with its message. */
  datatype IllegalArgument = IllegalArgument(message: string)
}
