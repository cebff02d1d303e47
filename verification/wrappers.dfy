/** The optional value used for "move or absent" in search results. */
module Wrappers {

  datatype Option<+T> = None | Some(value: T)
}
