/** Nullable values: a form field the browser did not send, an unset
    environment variable, or a SQL `NULL` column. */
module Nullable {

  /** `None` is Python's `None` (SQL `NULL`); `Some(v)` is a present value. */
  datatype Option<+T> = None | Some(value: T) {

    /** Python's `x or fallback` for the cases the handlers use it on: the
        stored value when there is one, the fallback otherwise. */
    function ValueOr(fallback: T): (r: T)
      ensures Some? ==> r == value
      ensures None? ==> r == fallback
    {
      if Some? then value else fallback
    }
  }
}
