/** Option and Result values shared by every module of the model. */
module Wrappers {
  datatype Option<T> = None | Some(value: T)

  /** A `throw` of the library becomes `Err` with the thrown message. */
  datatype Result<T> = Ok(value: T) | Err(msg: string)
}
