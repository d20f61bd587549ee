/** Optional values and fallible results, standing in for std::optional and thrown exceptions. */
module Wrappers {

  datatype Option<+T> = None | Some(value: T)

  /** `Err` carries the text of the exception the source would throw. */
  datatype Result<+T> = Ok(value: T) | Err(error: string)
}
