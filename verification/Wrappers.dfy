/** Result types shared by the other modules. */
module Wrappers {

  datatype Option<+T> = None | Some(value: T)

  /** How a parsing call of the library can end.
      - Ok: the call returns 0 (or a non-null pointer).
      - Rejected: it returns -1 (or NULL).
      - Aborted: an attribute of a known type has a malformed payload and
        the process ends in `abi_breakage`.
      - Undefined: the C code reads a null pointer or an indeterminate value, writes
        outside an array, or marks an attribute as set whose pointer is null. */
  datatype Outcome<+T> = Ok(value: T) | Rejected | Aborted | Undefined {
    predicate IsFailure() {
      !Ok?
    }

    function PropagateFailure<U>(): Outcome<U>
      requires !Ok?
    {
      match this
      case Rejected => Rejected
      case Aborted => Aborted
      case Undefined => Undefined
    }

    function Extract(): T
      requires Ok?
    {
      value
    }
  }
}
