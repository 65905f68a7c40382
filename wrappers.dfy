/** Option type shared by the modules: `None` plays the part of a C NULL result. */
module Wrappers {
  datatype Option<+T> = None | Some(value: T)
}
