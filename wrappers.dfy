/** Nullable values: the source's `null`-or-index state and optional results. */
module Wrappers {
  datatype Option<+T> = None | Some(value: T)
}
