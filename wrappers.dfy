/** Optional values and success-or-error results, used where the source relies on
    `dict.get` defaults or on exceptions. */
module Wrappers {

  datatype Option<+T> = None | Some(value: T)

  datatype Result<+T, +E> = Success(value: T) | Failure(error: E) {
    predicate IsFailure() {
      Failure?
    }

    function PropagateFailure<U>(): Result<U, E>
      requires Failure?
    {
      Failure(error)
    }

    function Extract(): T
      requires Success?
    {
      value
    }
  }

  /** `dict.get(key, default)`: the value when the key is present, else the default. */
  function Or<T>(o: Option<T>, default: T): T {
    if o.Some? then o.value else default
  }
}
