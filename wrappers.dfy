/** Optional values: a dictionary key that may be missing, a pending bound
    that may be unset. */
module Wrappers {
  datatype Option<+T> = None | Some(value: T)
}
