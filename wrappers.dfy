/**
 * Option, Result and Outcome: the shapes in which the model reports Python's
 * `None` and the exceptions the core raises.
 */
module Wrappers {

  /** A value that may be absent (Python's `None`). */
  datatype Option<+T> = None | Some(value: T)

  /** A computed value, or the error that the source raises instead. */
  datatype Result<+T, +E> = Success(value: T) | Failure(error: E)

  /** Success without a value, or the error that the source raises instead. */
  datatype Outcome<+E> = Pass | Fail(error: E)
}
