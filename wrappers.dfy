/** The optional value used for results that may be absent (a failed parse, a
    parameter set the source cannot form). */
module Wrappers {
  datatype Option<+T> = None | Some(value: T)
}
