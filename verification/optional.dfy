/** Failure-carrying wrappers shared by every module of the model. */
module Optional {

  /** Python's `None`-or-value: the result of a parse, a lookup or a request. */
  datatype Option<+T> = None | Some(value: T)

  /** A Python computation that either finishes with a value or raises. The
      exception's kind is not modelled; every caller in the model treats all
      exceptions alike. Usable with `:-`. */
  datatype Outcome<+T> = Done(value: T) | Raised {

    predicate IsFailure() {
      Raised?
    }

    function PropagateFailure<U>(): Outcome<U>
      requires Raised?
    {
      Raised
    }

    function Extract(): T
      requires Done?
    {
      value
    }
  }

  /** An operation that yields `None` where Python raises, as an `Outcome`. */
  function OrRaise<T>(o: Option<T>): (r: Outcome<T>)
    ensures r.Done? <==> o.Some?
    ensures r.Done? ==> r.value == o.value
  {
    match o
    case None => Raised
    case Some(v) => Done(v)
  }

  function Max(a: int, b: int): int {
    if a < b then b else a
  }

  function Min(a: int, b: int): int {
    if a < b then a else b
  }
}
