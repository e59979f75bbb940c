/** The optional value used for a storage lookup that may find nothing and
    for a search that may fail. */
module Wrappers {
  datatype Option<+T> = None | Some(value: T)
}
