/** The optional value used where the source keeps a `null`. */
module Wrappers {

  datatype Option<+T> = None | Some(value: T)
}
