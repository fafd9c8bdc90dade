/** Small helpers shared by every module of the model. */
module Wrappers {

  /** A value that may be absent: a missing (undefined or null) field of a document. */
  datatype Option<+T> = None | Some(value: T)

  function Min(a: int, b: int): (m: int)
    ensures m <= a && m <= b
    ensures m == a || m == b
  {
    if a <= b then a else b
  }
}
