/** Optional values: the model's stand-in for Python's `None`. */
module Wrappers {

  /** `None` or `Some(value)`; failure-compatible, so `:-` can be used with it. */
  datatype Option<+T> = None | Some(value: T) {

    predicate IsFailure() {
      None?
    }

    function PropagateFailure<U>(): Option<U>
      requires None?
    {
      None
    }

    function Extract(): T
      requires Some?
    {
      value
    }
  }
}
