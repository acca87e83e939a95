/** Optional values and the error outcomes that the client's operations raise as exceptions. */
module Wrappers {

  datatype Option<+T> = None | Some(value: T)

  /** The exceptions of the client, named after the .NET exception each one stands for. */
  datatype Error =
    | Unauthorized       // UnauthorizedAccessException: blank or unknown token
    | NotFound           // FileNotFoundException: the addressed stored file is absent
    | InvalidArgument    // ArgumentException: empty user name
    | DirectoryNotFound  // DirectoryNotFoundException: the local folder does not exist
    | DuplicateKey       // ArgumentException from ToDictionary: two records share a name

  /** The outcome of an operation that either returns a value or throws. */
  datatype Result<+T> = Ok(value: T) | Err(error: Error)
}
