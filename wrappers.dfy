/** Optional values and results with an error, used for the Drive listing
    oracle (which can fail) and for the optional link fields of an image. */
module Wrappers {

  datatype Option<+T> = None | Some(value: T)

  datatype Result<+T, +E> = Ok(value: T) | Err(error: E)
}
