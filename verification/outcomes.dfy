/** Result shapes shared by the whole model: Python's `Optional` values and the
    outcome of a call into a library whose code is not part of this model. */
module Outcomes {

  /** `None` / a value, as Python's `Optional[T]`. */
  datatype Option<+T> = None | Some(value: T) {
    function GetOr(default: T): T {
      match this
      case Some(v) => v
      case None => default
    }
  }

  /** What a foreign call did: it returned a value, or it raised an exception
      whose `str(e)` is `message`. */
  datatype Call<+T> = Returned(value: T) | Raised(message: string)

  /** Python truthiness of an optional string: `None` and `""` are both false. */
  predicate Present(s: Option<string>) {
    s.Some? && s.value != ""
  }
}
