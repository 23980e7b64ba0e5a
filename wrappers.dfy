/** Optional values: a Go `nil` pointer or `nil` slice is `None`. */
module Wrappers {

  datatype Option<+T> = None | Some(value: T)
}
