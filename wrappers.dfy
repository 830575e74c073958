/** Optional values: pandas' missing cells (NaN) and lookups that can fail. */
module Wrappers {

  datatype Option<+T> = None | Some(value: T)
}
