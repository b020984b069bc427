/** The usual Some/None wrapper, used where the source returns a value or a
    falsy marker (`False`, `''`, an exception on an empty selection). */
module Wrappers {
  datatype Option<+T> = None | Some(value: T)
}
