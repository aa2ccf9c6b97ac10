/** The Some/None datatype used wherever the source has `null`, `undefined`
    or an optional form value. */
module Wrappers {
  datatype Option<+T> = None | Some(value: T)
}
