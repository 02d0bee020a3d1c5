/** Optional values: the model's stand-in for C#'s `null`. */
module Wrappers {
  datatype Option<T> = None | Some(value: T)
}
