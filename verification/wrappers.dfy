/** Python's `None`-or-value, and the value cells of the crawler's result dictionaries. */
module Wrappers {

  datatype Option<T> = None | Some(value: T)

  /** A value held in a result dictionary or a CSV cell. */
  datatype Cell = Str(s: string) | Int(i: int) | Bool(b: bool) | Null
}
