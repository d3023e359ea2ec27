/** The optional value the broker modules use where JavaScript returns `undefined`. */
module Wrappers {

  datatype Option<+T> = None | Some(value: T)
}
