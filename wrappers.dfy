/** Optional values and success/failure results shared by the model.
    `None` stands for JavaScript's `null`/`undefined` and for SQL `NULL`. */
module Wrappers {

  datatype Option<+T> = None | Some(value: T)

  /** The outcome of a step that can throw: its value or the thrown error's message. */
  datatype Result<+T, +E> = Success(value: T) | Failure(error: E)

  /** The outcome of a step that yields nothing of interest but can throw. */
  datatype Outcome<+E> = Pass | Fail(error: E)
}
