/** Optional values: `None` stands for PHP's `null` (or `false` where a built-in signals "not found"). */
module Wrappers {

  datatype Option<+T> = None | Some(value: T)
}
