/** Small value types shared by the modules of this model. */
module Common {

  /** A possibly-absent value; stands for a C pointer that may be NULL. */
  datatype Option<+T> = None | Some(value: T)

  function Max(a: int, b: int): (m: int)
    ensures m >= a && m >= b && (m == a || m == b)
  {
    if a < b then b else a
  }
}
