/** Optional values and results-or-errors, standing for Java's nullable
    references, `Optional`, and the exceptions the services throw. */
module Wrappers {

  datatype Option<T> = None | Some(value: T)

  datatype Result<T, E> = Ok(value: T) | Err(error: E)
}
