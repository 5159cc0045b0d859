/** Failure-carrying results shared by the note service. */
module Wrappers {

  /** A value that may be absent, such as a form field that was not sent. */
  datatype Option<+T> = None | Some(value: T)

  /** The answer of a view: a payload or a tagged error. */
  datatype Result<+R, +E> = Success(value: R) | Failure(error: E)

  /** The answer of a view that only acknowledges success. */
  datatype Outcome<+E> = Pass | Fail(error: E)
}
