/** Option and Result, and the error value that the crate threads through `?`. */
module Wrappers {

  datatype Option<+T> = None | Some(value: T)

  /** An `anyhow::Error`: only its message is observable. */
  datatype Error = Error(message: string)

  /** `anyhow::Result<T>`. */
  datatype Result<+T> = Ok(value: T) | Err(error: Error)
}
