/** The Option type used where the firmware returns NULL or an error code. */
module Wrappers {

  datatype Option<+T> = None | Some(value: T)
}
