/** Optional values: `None` stands for a pandas NaN/inf, a missing group or a failed parse. */
module Wrappers {
  datatype Option<+T> = None | Some(value: T)
}
