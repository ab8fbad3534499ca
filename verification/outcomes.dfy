/** Failure-carrying values used in place of the exceptions the manager and the
    participant code throw. */
module Outcomes {

  /** A value that may be absent: an uncached profile, a frequency never set. */
  datatype Option<+T> = None | Some(value: T)

  /** Either a value or the condition that was raised instead of it. */
  datatype Result<+T, +E> = Success(value: T) | Failure(error: E)
}
