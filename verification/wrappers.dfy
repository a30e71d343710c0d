/** Optional values and results with an error, as used throughout the model. */
module Wrappers {

  /** `None` stands for JavaScript's `undefined` where the source can produce it. */
  datatype Option<T> = None | Some(value: T)

  datatype Result<T, E> = Ok(value: T) | Err(error: E)
}
