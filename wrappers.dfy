/** Optional values: an absent payload field, a URL that failed to parse, a cleared handle. */
module Wrappers {
  datatype Option<+T> = None | Some(value: T)
}
