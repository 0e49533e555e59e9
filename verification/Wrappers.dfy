/** The optional value used where the audit code returns "nothing" for an input. */
module Wrappers {

  datatype Option<+T> = None | Some(value: T)
}
