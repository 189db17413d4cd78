/** A value that may be absent: JavaScript's `undefined` for optional fields and query parameters. */
module Wrappers {

  datatype Option<+T> = None | Some(value: T)

}
