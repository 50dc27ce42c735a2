/** Optional values and results, shared by every module. */
module Wrappers {
  datatype Option<+T> = None | Some(value: T)

  /** A promise or call that either delivers a value or throws. */
  datatype Result<+T, +E> = Ok(value: T) | Err(error: E)
}
