/** Option and Result, used for the source's null returns and thrown exceptions. */
module Wrappers {

  datatype Option<+T> = None | Some(value: T)

  /** The exceptions the modelled code raises, named after their Java classes. */
  datatype Error =
    | NullPointer
    | NoSuchElement
    | IndexOutOfBounds
    | Arithmetic
    | IllegalArgument(message: string)
    | NumberFormat
    | IO(message: string)

  datatype Result<+T> = Ok(value: T) | Err(error: Error)
}
