/** Failure-carrying results used by the colour dataset loader and the matcher. */
module Wrappers {

  /** `None` stands for the loader's `return None`. */
  datatype Option<+T> = None | Some(value: T)

  /** A value or the error that the source would raise instead. */
  datatype Result<+R, +E> = Success(value: R) | Failure(error: E)
}
