/** The optional-value wrapper used for the session's scratch fields and for
    lines of a block that may be left undrawn. */
module Wrappers {

  datatype Option<+T> = None | Some(value: T)
}
