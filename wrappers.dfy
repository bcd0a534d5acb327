/** The conventional optional value, used where the source uses a nil pointer
    or a "not found" result. */
module Wrappers {

  datatype Option<+T> = None | Some(value: T)
}
