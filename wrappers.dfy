/** Shared value types of the two PDF tools: optional values, results that may
    carry one of the exceptions the tools raise, and bytes. */
module Wrappers {

  datatype Option<+T> = None | Some(value: T)

  /** The exceptions the tools raise to their command-line boundary. */
  datatype Error =
    | FileNotFound(path: string)   // FileNotFoundError: a missing input file
    | InvalidValue(message: string) // ValueError: bad counts, percents or page ranges
    | FileExists(path: string)     // FileExistsError: an output that may not be replaced

  datatype Result<+T> = Ok(value: T) | Err(error: Error)

  newtype byte = x: int | 0 <= x < 256

  function Min(a: int, b: int): int { if a <= b then a else b }

  function Max(a: int, b: int): int { if a >= b then a else b }
}
