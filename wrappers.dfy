/** Option and Result values used where the source returns None or raises. */
module Wrappers {
  datatype Option<T> = None | Some(value: T)

  /** The Python exception classes the modelled code raises. */
  datatype Exception =
    | ValueError
    | KeyError
    | IndexError
    | ZeroDivisionError
    | MergeError
    | NotImplementedError
    | TypeError
    | AttributeError

  datatype Result<T> = Ok(value: T) | Err(error: Exception)
}
