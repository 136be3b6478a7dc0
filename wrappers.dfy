/** The optional value used for "no detection", "no smoothed centre yet" and "no capture". */
module Wrappers {
  datatype Option<+T> = None | Some(value: T)
}
