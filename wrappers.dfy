/** Optional values, for a decode that can fail. */
module Wrappers {
  datatype Option<T> = None | Some(value: T)
}
