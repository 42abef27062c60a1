/** Optional values: a dictionary key that is missing or holds `None`. */
module Wrappers {

  datatype Option<+T> = None | Some(value: T)
}
