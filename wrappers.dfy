/** Optional values: a timed request that may have failed, a chunk whose
    `value` may be absent, a progress callback that may not fire. */
module Wrappers {
  datatype Option<+T> = None | Some(value: T)
}
