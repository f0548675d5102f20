/** The optional value returned where Python returns either a value or `None`. */
module Wrappers {

  datatype Option<+T> = None | Some(value: T)
}
