/** Optional values: a Python attribute that may hold `None`. */
module Wrappers {

  datatype Option<+T> = None | Some(value: T)
}
