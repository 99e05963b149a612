/** Optional values, the counterpart of Rust's `Option`. */
module Wrappers {

  datatype Option<+T> = None | Some(value: T)

  /** The result of a three-way comparison, the counterpart of Rust's `Ordering`. */
  datatype Ordering = Less | Equal | Greater
  {
    /** The ordering seen from the other operand. */
    function Reverse(): Ordering
    {
      match this
      case Less => Greater
      case Equal => Equal
      case Greater => Less
    }
  }
}
