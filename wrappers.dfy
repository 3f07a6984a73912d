/** The optional value used for a missing JSON field, a NaN parse and a lookup that finds no row. */
module Wrappers {
  datatype Option<+T> = None | Some(value: T)
}
