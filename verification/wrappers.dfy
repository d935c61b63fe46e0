/** Failure-carrying values shared by every module of the model. */
module Wrappers {

  /** A value that may be absent; `None` stands for Python's `None` / JSON `null`. */
  datatype Option<+T> = None | Some(value: T)

  /** The result of a step that either produces a value or fails with an error. */
  datatype Result<+T, +E> = Ok(value: T) | Err(error: E)

  /** The result of a step that produces nothing but may raise (its message is kept). */
  datatype Outcome = Pass | Fail(message: string)
}
