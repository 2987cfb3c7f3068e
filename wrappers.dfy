/** An optional request field: `None` when the body does not carry it. */
module Wrappers {

  datatype Option<+T> = None | Some(value: T)
}
