/** Optional values: `None` stands for PHP's `null` (a missing request field,
    absent response data). */
module Wrappers {
  datatype Option<+T> = None | Some(value: T)
}
