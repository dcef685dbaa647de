/** The Option type used for absent properties and for the `null` reading. */
module Wrappers {

  datatype Option<+T> = None | Some(value: T)
}
