/** Optional values and results with an error, shared by the other modules. */
module Wrappers {

  /** A value that may be absent; stands for Python's `None` where a name may be missing. */
  datatype Option<+T> = None | Some(value: T)

  /** The outcome of an operation that either returns a value or raises an error. */
  datatype Result<+R, +E> = Success(value: R) | Failure(error: E)
}
