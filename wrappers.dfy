/** Optional values, used for the results of searches that may find nothing. */
module Wrappers {
  datatype Option<+T> = None | Some(value: T)
}
