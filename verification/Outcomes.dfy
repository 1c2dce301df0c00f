/** Optional values and results that carry an error, for the source's null pointers and error returns. */
module Outcomes {
  datatype Option<+T> = None | Some(value: T)

  datatype Result<+T> = Ok(value: T) | Err(reason: string)
}
