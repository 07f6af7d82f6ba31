/** Optional values, as returned by the engine's lookups and matchers. */
module Wrappers {
  datatype Option<+T> = None | Some(value: T)
}
