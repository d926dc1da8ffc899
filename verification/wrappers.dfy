/** The optional values the handlers see: a query parameter that may be absent,
    an upload that may be missing, a generated text that may be undefined. */
module Wrappers {

  datatype Option<+T> = None | Some(value: T)
}
