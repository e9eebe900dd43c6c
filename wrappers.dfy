/** Optional values and the one error the ray tracer can raise over the reals. */
module Wrappers {

  /** Python's `None` or a value. */
  datatype Option<+T> = None | Some(value: T)

  /** The outcome of a computation that may raise Python's ZeroDivisionError:
      normalizing a zero-length vector, or the image-plane divisions by
      `width`, `width - 1` and `height - 1`. */
  datatype Result<+T> = Ok(value: T) | ZeroDivision {

    predicate IsFailure() {
      ZeroDivision?
    }

    function PropagateFailure<U>(): Result<U>
      requires IsFailure()
    {
      ZeroDivision
    }

    function Extract(): T
      requires Ok?
    {
      value
    }
  }
}
