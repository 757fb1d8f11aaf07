/** What the modules share: `Option` for values the program leaves as None, `Result` for
    operations that may raise, and three small functions. */
module Wrappers {
  datatype Option<+T> = None | Some(value: T)

  datatype Result<+T, +E> = Ok(value: T) | Err(error: E)

  /** The value when there is one. */
  function Or<T>(o: Option<T>, current: T): T {
    if o.Some? then o.value else current
  }

  /** Python's `new or old` on values that may be None. */
  function Keep<T>(o: Option<T>, current: Option<T>): Option<T> {
    if o.Some? then o else current
  }

  function Max(a: int, b: int): int {
    if a < b then b else a
  }
}
