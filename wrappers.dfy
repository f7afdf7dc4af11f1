/** Optional values, for data that may be absent (a timing log that was never loaded). */
module Wrappers {
  datatype Option<+T> = None | Some(value: T)
}
