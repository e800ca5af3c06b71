/** The optional value Python expresses with `None`, and the value-or-exception
    of an expression that may raise. */
module Wrappers {

  datatype Option<+T> = None | Some(value: T)

  datatype Result<+T, +E> = Ok(value: T) | Err(error: E)
}
