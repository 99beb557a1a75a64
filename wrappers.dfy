/** A value that may be absent: what reading a missing key or an unknown
    status text gives back. */
module Wrappers {

  datatype Option<+T> = None | Some(value: T)
}
