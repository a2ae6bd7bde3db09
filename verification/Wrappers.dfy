/** Values that may be missing, and answers that may be an exception. */
module Wrappers {
  datatype Option<T> = None | Some(value: T)

  datatype Result<T> = Ok(value: T) | Error
}
