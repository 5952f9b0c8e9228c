/** Failure-compatible helper datatype shared by every module of the model. */
module Wrappers {

  /** An optional value: the model's stand-in for a null pointer or an absent entry. */
  datatype Option<+T> = None | Some(value: T)
}

/** Bytes as the model's unsigned 8-bit values. */
module Bytes {
  newtype byte = x: int | 0 <= x < 256
}
