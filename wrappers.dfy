/** Optional values, used for the results of parsers that can fail. */
module Wrappers {
  datatype Option<+T> = None | Some(value: T)
}
