/** Failure-carrying datatypes shared by every module of the model. */
module Wrappers {

  /** A value that may be missing: a database row that may not exist, a parse that may fail. */
  datatype Option<+T> = None | Some(value: T)

  /** The outcome of an operation that either returns a value or raises an error. */
  datatype Result<+R, +E> = Success(value: R) | Failure(error: E) {
    predicate IsFailure() {
      Failure?
    }
  }
}
