/** Optional values: a missing JSON field, a NULL parse result, a receive timeout. */
module Wrappers {

  datatype Option<+T> = None | Some(value: T)
}
