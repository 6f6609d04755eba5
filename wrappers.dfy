/** The "none yet" / "unset" wrapper used for the per-node cost slots. */
module Wrappers {

  datatype Option<+T> = None | Some(value: T)
}
