/** Optional values and the one Python exception the mention pipeline can let escape. */
module Wrappers {

  datatype Option<T> = None | Some(value: T)

  /** The exceptions raised (and not caught) by the modelled code. */
  datatype PyError = IndexError

  /** A value, or the exception that Python code would raise instead of returning. */
  datatype Result<T> = Ok(value: T) | Err(error: PyError)
}
