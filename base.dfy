/** Values shared by every part of the model. */
module Base {

  /** An optional value: a missing attribute, key or row. */
  datatype Option<+T> = None | Some(value: T)

  /** The outcome of an operation that the source lets raise an exception. */
  datatype Result<+T, +E> = Ok(value: T) | Err(error: E)

  /**
   * A dynamically typed value as the source passes it around: Python's `None`,
   * an integer, or a float (modelled exactly, as a `real`).
   */
  datatype Value = Null | Int(i: int) | Real(x: real)

  /** True when `s` ends with `suffix` (Python's `str.endswith`). */
  predicate EndsWith(s: string, suffix: string)
  {
    |suffix| <= |s| && s[|s| - |suffix|..] == suffix
  }
}
