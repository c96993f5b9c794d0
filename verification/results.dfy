/** The two wrappers the model threads through every operation: `Option` for a
    PHP value that may be unset, and `Result` for a PHP call that either
    returns or throws. `Result` supports the `:-` operator, which stops at the
    first thrown error as PHP's exceptions do. */
module Results {

  datatype Option<+T> = None | Some(value: T) {

    /** What PHP's `$x ?? $fallback` gives: the held value, or `fallback`
        when nothing is held. */
    function ValueOr(fallback: T): (r: T)
      ensures Some? ==> r == value
      ensures None? ==> r == fallback
    {
      if Some? then value else fallback
    }
  }

  /** `Ok(value)` when the PHP call returns, `Err(error)` when it throws. */
  datatype Result<+T, +E> = Ok(value: T) | Err(error: E) {

    /** `:-` stops here exactly when the call threw. */
    predicate IsFailure() {
      Err?
    }

    /** Re-raises the same error from a caller with another return type. */
    function PropagateFailure<U>(): (r: Result<U, E>)
      requires Err?
      ensures r.Err? && r.error == error
    {
      Err(error)
    }

    /** The returned value, for a call that did not throw. */
    function Extract(): T
      requires Ok?
    {
      value
    }
  }
}
