/** Optional values: an absent request field, a cleared interval handle. */
module Wrappers {
  datatype Option<+T> = None | Some(value: T)
}
