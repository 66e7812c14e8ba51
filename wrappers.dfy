/** Optional values and results with an error, used for the helpers' partial
    results and for the parser's diagnostics. */
module Wrappers {

  datatype Option<+T> = None | Some(value: T)

  datatype Result<+R, +E> = Ok(value: R) | Err(error: E)
}
