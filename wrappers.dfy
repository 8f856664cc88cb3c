/** The conventional optional value, used where the source returns `null`. */
module Wrappers {

  datatype Option<+T> = None | Some(value: T)
}
