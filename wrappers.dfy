/** The optional value used for results that can fail: a distance query that raises in the
    source, or a scan that aborts the run. */
module Wrappers {
  datatype Option<+T> = None | Some(value: T)
}
