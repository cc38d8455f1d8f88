/** Option and Result values for operations whose Go counterparts return
    an error or an absent value. */
module Wrappers {

  datatype Option<+T> = None | Some(value: T)

  datatype Result<+T, +E> = Ok(value: T) | Err(error: E)
}
