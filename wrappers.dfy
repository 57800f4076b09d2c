/** Failure-carrying datatypes shared by the hook modules. */
module Wrappers {

  datatype Option<+T> = None | Some(value: T)

  /** A computed value, or the error that was raised instead. */
  datatype Result<+R, +E> = Success(value: R) | Failure(error: E)

  /** Completion without a value (a `Promise<void>` that resolved), or a raised error. */
  datatype Outcome<+E> = Pass | Fail(error: E)
}
