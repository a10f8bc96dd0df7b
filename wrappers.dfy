/** Optional values: JavaScript's `undefined` for an absent result. */
module Wrappers {
  datatype Option<+T> = None | Some(value: T)
}
