/** Optional values: an archive entry that may be missing, a decoding that may fail. */
module Wrappers {
  datatype Option<+T> = None | Some(value: T)
}
