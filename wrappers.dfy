/** Optional values, used for JavaScript's `null` results and absent state. */
module Wrappers {
  datatype Option<+T> = None | Some(value: T)
}
