/** Optional values, used for PHP's `isset` / `null` distinctions. */
module Wrappers {
  datatype Option<+T> = None | Some(value: T)
}
