/** Optional values: an attribute that may be missing, a match that may not exist. */
module Wrappers {

  datatype Option<+T> = None | Some(value: T)
}
