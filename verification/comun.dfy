/** Shared wrappers: an optional value, and the outcome of an operation that may raise. */
module Comun {

  datatype Option<+T> = None | Some(value: T)

  /** The two Python exceptions the exercises raise. */
  datatype Excepcion = ValueError | TypeError

  /** Either a value or the exception a constructor raises instead. */
  datatype Result<+T> = Ok(value: T) | Err(error: Excepcion)
}
