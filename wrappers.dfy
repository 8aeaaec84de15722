/** Option and Result, the two wrappers the model uses for JavaScript's
    `undefined`/`null` and for an exception that escapes an operation. */
module Wrappers {

  datatype Option<+T> = None | Some(value: T)

  datatype Result<+R, +E> = Ok(value: R) | Err(error: E)
}
