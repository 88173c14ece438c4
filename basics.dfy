/** Optional values and results shared by the other modules. */
module Basics {

  datatype Option<+T> = None | Some(value: T)

  /** A computation that either produces a value or raises; the failure
      carries what the raising code would report. */
  datatype Result<+T, +E> = Success(value: T) | Failure(error: E)
}
