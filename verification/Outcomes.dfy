/** Status codes and results shared by every component of the model. */
module Outcomes {

  /** The codes of `ok::Status` that the modelled operations return. */
  datatype Status =
    | Success
    | NotFound
    | AlreadyExists
    | Busy
    | InvalidArgument
    | Unsupported
    | Denied
    | NoMemory
    | Overflow
    | IoError
    | NotInitialized
    | NotDirectory
    | IsDirectory
    | NotEmpty
    | LinkLimit
    | Fault

  /** A value, or the status explaining why there is none. */
  datatype Result<+T> = Ok(value: T) | Err(status: Status)

  type byte = x: int | 0 <= x < 256

  function Min(a: int, b: int): int { if a < b then a else b }

  function Max(a: int, b: int): int { if a < b then b else a }
}
