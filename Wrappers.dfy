/** The optional result used for operations that can fail. */
module Wrappers {

  datatype Option<+T> = None | Some(value: T)
}
