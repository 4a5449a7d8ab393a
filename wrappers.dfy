/** A value that may be missing: a failed lookup, a text that does not parse. */
module Wrappers {

  datatype Option<+T> = None | Some(value: T)

}
