/** The optional value used for `parent` links and for `get_neighbor`'s `Cell | None`. */
module Wrappers {
  datatype Option<+T> = None | Some(value: T)
}
