/** The Option datatype used for values the host may not have (a storage entry, a parse). */
module Wrappers {
  datatype Option<+T> = None | Some(value: T)
}
