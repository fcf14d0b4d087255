/** The optional value used wherever the source has `null`, `undefined` or
    a regular-expression match that may fail. */
module Wrappers {

  datatype Option<+T> = None | Some(value: T)
}
