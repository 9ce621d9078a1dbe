/** The optional and throwing results the source's calls produce. */
module Wrappers {

  /** Swift's `T?`: a value, or nothing. */
  datatype Option<+T> = None | Some(value: T)

  /** A call that either returns a value or throws an error. */
  datatype Result<+R, +E> = Success(value: R) | Failure(error: E)
}
