/** Failure-carrying values used where the Python code raises or returns None. */
module Wrappers {

  datatype Option<+T> = None | Some(value: T)

  /** `Err` stands for a raised exception or a process exit; `error` says which. */
  datatype Result<+T, +E> = Ok(value: T) | Err(error: E)
}
