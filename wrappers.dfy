/** The `Option` type shared by the other modules. */
module Wrappers {

  datatype Option<+T> = None | Some(value: T)
}
