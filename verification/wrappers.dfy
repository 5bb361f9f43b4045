/** Optional values and results, for the error returns, exceptions and missing
    entries of the modelled code. */
module Wrappers {
  datatype Option<+T> = None | Some(value: T)

  datatype Result<+T, +E> = Ok(value: T) | Err(error: E)
}
