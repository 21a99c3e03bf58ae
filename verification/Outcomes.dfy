/** Optional values, for results that may be missing. */
module Outcomes {
  datatype Option<+T> = None | Some(value: T)
}
