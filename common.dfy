/** Small value types shared by both copies of the B-tree: the optional
    value, the fallible result and the three-way ordering of Rust's `Ord`. */
module Common {

  /** `Option<T>`: `Some(value)` or `None`. */
  datatype Option<+T> = None | Some(value: T)

  /** `Result<T, E>`: `Ok(value)` or `Err(error)`. */
  datatype Result<+T, +E> = Ok(value: T) | Err(error: E)

  /** `std::cmp::Ordering`. */
  datatype Ordering = Less | Equal | Greater {
    /** The ordering seen from the other operand (`Ordering::reverse`). */
    function Reverse(): Ordering {
      match this
      case Less => Greater
      case Equal => Equal
      case Greater => Less
    }
  }

  /** `Ord::cmp` on the key type, which the model fixes to `int`. */
  function CompareInt(a: int, b: int): (r: Ordering)
    ensures r == Less <==> a < b
    ensures r == Equal <==> a == b
    ensures r == Greater <==> a > b
  {
    if a < b then Less else if a == b then Equal else Greater
  }
}
