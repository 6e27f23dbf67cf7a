/** The JavaScript `null`/`undefined` of a lookup, as a value. */
module Wrappers {

  datatype Option<+T> = None | Some(value: T)
}
