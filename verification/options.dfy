/** An optional value, used where PHP returns null or "nothing found". */
module Options {

  datatype Option<+T> = None | Some(value: T) {

    /** Applies `f` to the value, if there is one. */
    function Apply<U>(f: T -> U): Option<U>
    {
      match this
      case None => None
      case Some(v) => Some(f(v))
    }

    /** The value, or `default` when there is none (PHP's `?:` / `??`). */
    function GetOr(default: T): T
    {
      match this
      case None => default
      case Some(v) => v
    }
  }
}
