/** Small value wrappers shared by the other modules. */
module Wrappers {

  datatype Option<+T> = None | Some(value: T)

  /** A Go-style pair of a value and an optional error: the callee always
      returns a value, and on failure that value is the type's zero value. */
  datatype Reply<+T, +E> = Reply(value: T, err: Option<E>) {
    predicate Ok() { err.None? }
  }
}
