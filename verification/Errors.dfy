/** The error codes the modelled operations return (include/rtdb/err.hpp). */
module Errors {
  datatype Err =
    | Ok
    | InvalidArgument
    | NotFound
    | AlreadyExists
    | OutOfMemory
    | LimitExceeded
    | Corruption
    | CursorOverflow
    | Poisoned
    | IoError
    | Timeout
    | Unsupported
    | Internal
    | ProtocolError
    | SqlSyntax

  datatype Result<+T> = Success(value: T) | Failure(error: Err)

  datatype Option<+T> = None | Some(value: T)
}
