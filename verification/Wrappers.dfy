/** Optional values, for table entries that hold the source's "unmapped" and "invalid" sentinels. */
module Wrappers {
  datatype Option<+T> = None | Some(value: T)
}
