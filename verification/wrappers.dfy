/** Optional values and results with an error side, used in place of the
    JavaScript `undefined`/`null` values and thrown errors of the generator. */
module Wrappers {

  datatype Option<+T> = None | Some(value: T)

  datatype Result<+T, +E> = Success(value: T) | Failure(error: E)

  /** `Math.max(a, b)` on integers. */
  function Max(a: int, b: int): int { if a < b then b else a }
}
