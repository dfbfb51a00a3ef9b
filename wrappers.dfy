/** Option and Result types, and the error a failed operation reports. */
module Wrappers {

  datatype Option<T> = None | Some(value: T)

  /** What the source throws: a `cError` carrying a message, or the number
      parser's own failure on a text that is not a number. */
  datatype Error =
    | Error(message: string)
    | NotANumber(text: string)

  datatype Result<T> = Ok(value: T) | Failure(error: Error)
}
