/** The usual Some/None datatype, used for values JavaScript reports as
    `undefined` or `NaN`. */
module Wrappers {
  datatype Option<+T> = None | Some(value: T)
}
