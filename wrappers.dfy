/** The optional value used wherever the action deals in `null`. */
module Wrappers {

  datatype Option<+T> = None | Some(value: T)
}
