/** Values shared by every module of the model: optional values and the
    outcome of a call that may throw. */
module Wrappers {

  /** A value that may be absent (JavaScript's `null`). */
  datatype Option<+T> = None | Some(value: T)

  /** The two kinds of exception the modelled code throws. */
  datatype Exception = Error(message: string) | TypeError(message: string)

  /** A call that either returns normally or throws `error`. */
  datatype Outcome = Pass | Fail(error: Exception)
}
