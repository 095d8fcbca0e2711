/** Optional values, for a walk down the tree that may fall off it. */
module Wrappers {

  datatype Option<T> = None | Some(value: T)

}
