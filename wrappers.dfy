/** Optional values (C#'s nullable `T?` and `null` references) and outcomes of
    operations that can throw. */
module Wrappers {

  datatype Option<T> = None | Some(value: T)

  /** The result of an operation that either returns a value or throws. */
  datatype Result<T, E> = Ok(value: T) | Err(error: E)
}
