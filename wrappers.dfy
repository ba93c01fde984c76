/** Optional values: an attribute or header that may be missing. */
module Wrappers {

  datatype Option<+T> = None | Some(value: T)
}
