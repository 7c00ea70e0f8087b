/** Success-or-error values standing in for the exceptions the Python code raises. */
module Wrappers {

  /** `Err` carries the exception the source would raise; `Ok` the value it would return. */
  datatype Result<+T, +E> = Ok(value: T) | Err(error: E)

  datatype Option<+T> = None | Some(value: T)
}
