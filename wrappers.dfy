/** Outcomes of the hash table's operations: the Python exceptions the
    code can raise, and the fuel bound that stands in for unbounded
    regrowth. */
module Wrappers {

  datatype Option<+T> = None | Some(value: T)

  /** The exceptions the two hash tables can raise. */
  datatype PyError =
    | KeyError            // `get` of an absent key
    | IndexError          // a probe that steps past the end of the slot list
    | ZeroDivisionError   // `size / float(capacity)` or `hash(key) % capacity` with capacity 0
    | AssertionError      // the density check of the bounded-miss constructor

  /** Either a normal return, a raised exception, or "the fuel bound on
      nested grows ran out" (which the Python code does not have). */
  datatype Result<+T> = Ok(value: T) | Raised(error: PyError) | OutOfFuel {

    /** Re-types a non-normal outcome, as an exception propagates. */
    function Cast<U>(): (r: Result<U>)
      requires !Ok?
      ensures r.Raised? <==> Raised?
      ensures Raised? ==> r.error == error
    {
      if Raised? then Raised(error) else OutOfFuel
    }
  }
}
