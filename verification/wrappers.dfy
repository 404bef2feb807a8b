/** Failure-carrying values used in place of Python's exceptions and
    `dict.get` defaults. */
module Wrappers {

  datatype Option<+T> = None | Some(value: T)

  /** The outcome of a call that may raise: the value, or the text of the
      exception (what `str(e)` would give). */
  datatype Result<+T, +E> = Success(value: T) | Failure(error: E)
}
