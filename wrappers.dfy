/** The optional value used where the explorer's JavaScript yields `undefined` or `null`. */
module Wrappers {
  datatype Option<+T> = None | Some(value: T)
}
