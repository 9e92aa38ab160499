/** Optional values, standing in for Go's nil-able `error`. */
module Wrappers {

  datatype Option<+T> = None | Some(value: T)
}
