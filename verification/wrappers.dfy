/** Optional values and results with an error, for the `null`/`undefined` and `{ error }` returns of the source. */
module Wrappers {

  datatype Option<+T> = None | Some(value: T)

  datatype Result<+T, +E> = Ok(value: T) | Err(error: E)
}
