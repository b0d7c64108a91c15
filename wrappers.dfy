/** Failure-carrying datatypes shared by the assembler's modules. */
module Wrappers {

  /** A value that may be absent: an absent destination or jump, a missing table entry. */
  datatype Option<+T> = None | Some(value: T)

  /** The outcome of a step that can fail with an error of type `E`. */
  datatype Result<+R, +E> = Success(value: R) | Failure(error: E)
}
