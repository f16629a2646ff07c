/** Optional values: the source's `null`able fields, "nothing stored", a failed parse. */
module Wrappers {

  datatype Option<+T> = None | Some(value: T) {

    predicate IsFailure()
    {
      None?
    }

    function PropagateFailure<U>(): Option<U>
      requires None?
    {
      None
    }

    function Extract(): T
      requires Some?
    {
      value
    }
  }
}
