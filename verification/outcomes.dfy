/** Failure-carrying values used across the model: an optional value (a JS
    `undefined`/falsy field) and the result of an operation that may throw. */
module Outcomes {

  datatype Option<+T> = None | Some(value: T) {

    /** The value, or `default` when absent (the `??` / `||` fallbacks). */
    function GetOr(default: T): T {
      match this
      case Some(v) => v
      case None => default
    }
  }

  /** JavaScript truthiness of an optional string: present and non-empty. */
  predicate Truthy(o: Option<string>) {
    o.Some? && |o.value| > 0
  }

  /** `Ok` is a normal return, `Err` a thrown error. */
  datatype Result<+T, +E> = Ok(value: T) | Err(error: E)
}
