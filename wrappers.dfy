/** Optional values, for the PHP calls that answer `false` instead of a value. */
module Wrappers {

  datatype Option<+T> = None | Some(value: T)
}
