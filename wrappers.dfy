/** Nullable references and exception-or-value results. */
module Wrappers {

  /** A Java reference that may be null: `None` stands for null. */
  datatype Option<+T> = None | Some(value: T)

  /** A Java call that either returns a value or throws an exception. */
  datatype Result<+T, +E> = Success(value: T) | Failure(error: E)
}
