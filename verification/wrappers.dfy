/** Optional values: `None` stands for the source's `null` result or a failed lookup. */
module Wrappers {
  datatype Option<+T> = None | Some(value: T)
}
