/** Optional values, used where the source signals "no value" with an exception. */
module Wrappers {
  datatype Option<+T> = None | Some(value: T)
}
