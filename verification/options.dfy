/** Absent values and failures.

    JavaScript marks a missing value with `undefined`, `null` or `NaN` and an
    early exit with an `alert` and `return`; the model names both explicitly.
 */
module Options {

  /** A value that may be absent (`undefined`, `null` or `NaN` in the source). */
  datatype Option<+T> = None | Some(value: T) {

    /** The value, or `default` when there is none (the source's `x || default`
        on a field that is either missing or present). */
    function GetOr(default: T): T {
      match this
      case Some(v) => v
      case None => default
    }
  }

  /** The outcome of an operation that either produces a value or stops early. */
  datatype Result<+T, +E> = Ok(value: T) | Err(error: E)
}
