/** Optional values, as the source's `Option` / Python's `None`. */
module Wrappers {
  datatype Option<+T> = None | Some(value: T)
}
