/** Optional values, and results that are either a value or a Python exception. */
module Wrappers {

  datatype Option<+T> = None | Some(value: T)

  /** The Python exceptions the modelled functions can raise. */
  datatype PyError =
    | ValueError         // int(x, 16) on a non-hex token; pwntools unpack on a wrong-length buffer
    | ZeroDivisionError  // len(s) // 0

  datatype Result<+T> = Ok(value: T) | Err(error: PyError)
}
