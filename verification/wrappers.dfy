/** Optional values: an absent TTL, an absent expiry time, a missing result or a nil error. */
module Wrappers {

  datatype Option<+T> = None | Some(value: T)
}
