/** Option and Result datatypes shared by the modules of this model. */
module Wrappers {

  /** A value that may be absent; stands for TypeScript's `T | null` and `T | undefined`. */
  datatype Option<+T> = None | Some(value: T)

  /** The outcome of an operation that may throw: the value it returns or the error it raises. */
  datatype Result<+R, +E> = Success(value: R) | Failure(error: E)
}
