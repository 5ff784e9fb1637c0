/** Optional values and results with an error, for the dashboard's early exits and error pages. */
module Outcomes {

  datatype Option<T> = None | Some(value: T)

  datatype Result<T, E> = Ok(value: T) | Err(error: E)
}
