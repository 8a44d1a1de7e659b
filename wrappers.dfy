/** The outcome of a stage that can fail with an error of kind `E`. */
module Wrappers {

  datatype Result<T, E> = Ok(value: T) | Err(error: E)
}
