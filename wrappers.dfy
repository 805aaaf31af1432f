/** Small helper types shared by every module: Rust's `Option` and `Ordering`. */
module Wrappers {
  datatype Option<T> = None | Some(value: T)

  datatype Result<T, E> = Ok(value: T) | Err(error: E)

  /** The result of comparing two values (`core::cmp::Ordering`). */
  datatype Ordering = Less | Equal | Greater
  {
    /** The ordering seen from the other side of the comparison. */
    function Reverse(): (r: Ordering)
      ensures r.Less? <==> this.Greater?
      ensures r.Greater? <==> this.Less?
    {
      match this
      case Less => Greater
      case Equal => Equal
      case Greater => Less
    }
  }
}
