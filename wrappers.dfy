/** Optional values: a DOM lookup that finds nothing, a field that is absent. */
module Wrappers {
  datatype Option<+T> = None | Some(value: T)
}
