/** Optional values and results with an error, as the adapter's nullable fields and
    thrown exceptions are modelled. */
module Wrappers {

  datatype Option<+T> = None | Some(value: T)

  datatype Result<+R, +E> = Ok(value: R) | Err(error: E)
}
