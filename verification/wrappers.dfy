module Wrappers {
  /** An optional value; `None` plays the part of `undefined` or `null`. */
  datatype Option<+T> = None | Some(value: T)

  /** The outcome of a validation: the value, or the error that stopped it. */
  datatype Result<+T, +E> = Success(value: T) | Failure(error: E)

  /** The value held, or `fallback` when there is none: the `x || fallback`
      and `x ?? fallback` idioms of the source. */
  function ValueOr<T>(o: Option<T>, fallback: T): (r: T)
    ensures o.Some? ==> r == o.value
    ensures o.None? ==> r == fallback
  {
    if o.Some? then o.value else fallback
  }
}
