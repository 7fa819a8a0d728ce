/** Failure-carrying values used by the translation pipeline: `Option` for a
    step that may produce nothing (a failed provider call, a non-`.po` path),
    `Result` for a step whose failure carries an error value. */
module Wrappers {

  datatype Option<+T> = None | Some(value: T)

  datatype Result<+R, +E> = Success(value: R) | Failure(error: E)
}
