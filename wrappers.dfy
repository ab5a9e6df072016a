/** Optional values: SQL NULL, Python None, a missing dictionary entry. */
module Wrappers {
  datatype Option<+T> = None | Some(value: T)
}
