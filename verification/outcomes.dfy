/** Failure-carrying wrappers shared by every module of the model. */
module Outcomes {

  /** A value that may be missing: `undefined`/`null` on the JavaScript side. */
  datatype Option<+T> = None | Some(value: T) {

    /** The wrapped value, or `default` when there is none (JavaScript `x ?? default`). */
    function GetOr(default: T): T {
      match this
      case Some(v) => v
      case None => default
    }
  }

  /** The result of an operation that either yields a value or throws with a message. */
  datatype Result<+T, +E> = Success(value: T) | Failure(error: E)

  /** JavaScript `Number(env) || fallback` for an environment variable read as a number:
      `None` stands for an unset variable or one that is not a number (NaN), and zero is
      falsy, so both fall back. */
  function NumberOr(env: Option<int>, fallback: int): (r: int)
    ensures r == fallback <==> env.None? || env.value == 0 || env.value == fallback
    ensures r != fallback ==> env == Some(r)
  {
    if env.Some? && env.value != 0 then env.value else fallback
  }
}
