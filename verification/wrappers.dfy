/** Failure-carrying datatypes shared by the whole model. */
module Wrappers {

  /** A C pointer that may be NULL. */
  datatype Option<+T> = None | Some(value: T) {

    /** The pointed-to value, or `default` when the pointer is NULL. */
    function GetOr(default: T): T {
      match this
      case Some(v) => v
      case None => default
    }
  }

  /** The outcome of C code that can run into undefined behaviour: a NULL
      dereference, an out-of-bounds read or a `size_t` wrap-around. The model
      does not guess what such code does; it records that it is undefined. */
  datatype Checked<+T> = Defined(value: T) | Undefined
}
