/** The optional value used for the route of an edge (Java's nullable reference). */
module Wrappers {
  datatype Option<+T> = None | Some(value: T)
}
