/** Optional values and results shared by the two model modules. */
module Wrappers {

  datatype Option<+T> = None | Some(value: T)

  /** A value, or the fatal error the solver would abort with. */
  datatype Result<+T, +E> = Ok(value: T) | Err(error: E)
}
