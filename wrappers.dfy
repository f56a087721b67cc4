/** The usual Some/None datatype, used for "not found" and for a quantity field that does not parse. */
module Wrappers {

  datatype Option<+T> = None | Some(value: T)

}
