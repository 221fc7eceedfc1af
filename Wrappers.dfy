/** Optional values: a JavaScript field that may be null or missing. */
module Wrappers {
  datatype Option<+T> = None | Some(value: T)
}
