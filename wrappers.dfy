/** Optional values: the contents of the control channel's single slot. */
module Wrappers {

  datatype Option<+T> = None | Some(value: T)
}
