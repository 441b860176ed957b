/** Option and Result, and the Python exceptions the modelled code can raise. */
module Wrappers {

  datatype Option<+T> = None | Some(value: T)

  datatype Result<+T, +E> = Ok(value: T) | Err(error: E)

  /** The exception classes that escape from the modelled functions. */
  datatype PyError =
    | TypeError          // e.g. quote() of an int, iterating an int, an unhashable dict key
    | AttributeError     // e.g. .split() called on a non-string
    | ZeroDivisionError  // `done % batch_size` with batch_size == 0
    | ReadError          // PdfReader could not open a file while indexing
}
