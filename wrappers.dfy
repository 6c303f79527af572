/** Option and Result, used wherever the scripts return None or raise. */
module Wrappers {

  datatype Option<+T> = None | Some(value: T)

  /** `Err` stands for a Python exception; `error` names its kind. */
  datatype Result<+T, +E> = Ok(value: T) | Err(error: E)
}
