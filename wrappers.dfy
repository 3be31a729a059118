/** Optional values, used where the source would produce NaN or undefined. */
module Wrappers {
  datatype Option<+T> = None | Some(value: T)
}
