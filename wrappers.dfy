/** The `Option` type that the Rust code returns from lookups and removals. */
module Wrappers {

  datatype Option<+T> = None | Some(value: T)
}
