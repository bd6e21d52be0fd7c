/** Option and Result values for lookups that can fail and for operations that report an error. */
module Wrappers {
  datatype Option<T> = None | Some(value: T)

  datatype Result<T> = Ok(value: T) | Error(message: string)
}
