/** Types and predicates shared by the modules of the model. */
module Common {

  /** A nullable column, or a Go pointer that may be nil. */
  datatype Option<+T> = None | Some(value: T)

  /** The outcome of a Go call that returns a value or an error. */
  datatype Result<+T, +E> = Ok(value: T) | Err(error: E)

  ghost predicate Distinct<T>(xs: seq<T>) {
    forall i, j :: 0 <= i < j < |xs| ==> xs[i] != xs[j]
  }

  /** The value of a result, if it has one. */
  function ToOption<T, E>(r: Result<T, E>): Option<T> {
    match r
    case Ok(v) => Some(v)
    case Err(_) => None
  }
}
