/** Optional values, for computations that may have no result. */
module Wrappers {

  datatype Option<T> = None | Some(value: T)
}
