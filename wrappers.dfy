/** Failure-compatible wrappers used for the queue's absent items and thrown errors. */
module Wrappers {

  /** An optional value; `None` stands for JavaScript's `undefined`. */
  datatype Option<+T> = None | Some(value: T)

  /** A value-carrying outcome: the resolved value or the error thrown. */
  datatype Result<+R, +E> = Success(value: R) | Failure(error: E)

  /** An outcome that carries no value on success. */
  datatype Outcome<+E> = Pass | Fail(error: E)
}
