/** Nil-able values. */
module Wrappers {

  /** `None` stands for Go's nil: a nil slice of routing keys is `None`,
      a present (possibly empty) slice is `Some(keys)`. */
  datatype Option<+T> = None | Some(value: T)
}
