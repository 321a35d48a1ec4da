/** The optional-value and result types shared by the whole model. */
module Wrappers {

  /** A value that may be absent (a JavaScript `null`/`undefined`, a missing map entry). */
  datatype Option<+T> = None | Some(value: T)

  /** The outcome of a call that either returns a value or throws. */
  datatype Outcome<+T> = Success(value: T) | Failure(error: string)
}
