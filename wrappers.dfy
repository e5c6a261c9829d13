/** Option and Result, the two wrappers the model uses for pandas' missing
    values (NaN) and for the errors the Python code raises. */
module Wrappers {

  datatype Option<+T> = None | Some(value: T)

  datatype Result<+R, +E> = Success(value: R) | Failure(error: E)
}
