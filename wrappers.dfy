/** Failure-carrying datatypes shared by the modules of the model. */
module Wrappers {

  datatype Option<T> = None | Some(value: T)

  /** A computation that either yields a value or ends the whole process:
      `error()` calls `exit(1)`, and an exception escaping `std::stoi` or
      `std::stoul` terminates the program. */
  datatype Result<T> = Ok(value: T) | Abort
}
