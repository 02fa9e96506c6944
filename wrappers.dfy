/** Optional values: Go's (value, ok) and (value, err) pairs become Some(value) or None. */
module Wrappers {
  datatype Option<+T> = None | Some(value: T)
}
