/** The shapes in which an operation that can fail returns: Kotlin's nullable
    values and thrown exceptions become `None` and `Err`. */
module Wrappers {

  datatype Option<+T> = None | Some(value: T)

  datatype Result<+T, +E> = Ok(value: T) | Err(error: E)
}
