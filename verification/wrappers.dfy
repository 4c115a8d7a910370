/** The optional result of the search: `None` is the "no solution" signal,
    distinct from `Some(map[])`, the complete colouring of an empty graph. */
module Wrappers {

  datatype Option<+T> = None | Some(value: T)
}
