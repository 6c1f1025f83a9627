/** Optional values and results, standing for the source's `Option` and `Result`. */
module Wrappers {
  datatype Option<+T> = None | Some(value: T)
  {
    /** The members `:-` needs, the source's `?`. */
    predicate IsFailure() { None? }

    function PropagateFailure<U>(): Option<U>
      requires None?
    {
      Option<U>.None
    }

    function Extract(): T
      requires Some?
    {
      value
    }
  }

  datatype Result<+T, +E> = Ok(value: T) | Err(error: E)
}
