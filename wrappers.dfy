/** The optional value returned where the Rust code hands back a pointer that may be null. */
module Wrappers {

  datatype Option<+T> = None | Some(value: T)

}
