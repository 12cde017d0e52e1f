/** The conventional optional value, used for absent slot bounds and raw texts. */
module Wrappers {
  datatype Option<+T> = None | Some(value: T)
}
