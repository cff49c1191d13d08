/** Option and Result values shared by every module: `null` results and thrown errors of
    the JavaScript source become `None` and `Err`. */
module Wrappers {

  datatype Option<+T> = None | Some(value: T)

  datatype Result<+T, +E> = Ok(value: T) | Err(error: E)
}
