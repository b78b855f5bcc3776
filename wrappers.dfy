/** The optional value used for "found / not found" answers. */
module Wrappers {

  datatype Option<+T> = None | Some(value: T)
}
