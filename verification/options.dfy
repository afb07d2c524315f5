/** An optional value: the model's stand-in for a JavaScript value that may be `null` or `undefined`. */
module Options {

  datatype Option<+T> = None | Some(value: T) {

    /** The wrapped value, or `default` when there is none (JavaScript `x || default` on arrays). */
    function GetOr(default: T): T {
      match this
      case Some(v) => v
      case None => default
    }
  }

  /** The presence test of `filter(Boolean)` on a list of records or `undefined`s. */
  predicate IsSome<T>(o: Option<T>) {
    o.Some?
  }
}
