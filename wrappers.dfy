/** Error outcomes shared by the whole model: the C++ exceptions the core
    throws become the `Err` case of a `Result`. */
module Wrappers {

  /** The exception classes the core throws. */
  datatype Error =
    | InvalidArgument        // std::invalid_argument
    | RuntimeError(key: string) // std::runtime_error for an unknown parameter key
    | LogicError             // std::logic_error
    | RequiresImplementation // RequiresImplementationError, thrown by unimplemented stubs

  datatype Result<+T> = Ok(value: T) | Err(error: Error)

  /** An outcome without a value: the operation either returned or threw. */
  datatype Outcome = Pass | Fail(error: Error)

  datatype Option<+T> = None | Some(value: T)
}
