/**
 * File paths, the errors the core raises, and the result type that carries
 * them in place of JavaScript exceptions.
 */
module Common {

  /** A file in a directory. Paths are compared structurally; `path.resolve` normalisation is not modelled. */
  datatype Path = Path(dir: string, name: string)

  /** Each `throw new Error(...)` of the core, and a failed fetch. */
  datatype Error =
    | AdifNotFound(path: Path)        // "ADIF file not found"
    | BackupNotFound(path: Path)      // "Backup file not found"
    | NoOutputPath                    // saveJSONData without outputPath or configContext
    | UnknownPathType(kind: string)   // getPath with an unknown type
    | InvalidSetting(key: string)     // a path setting that is not a string (path.resolve throws)
    | CredentialsRequired             // "LoTW username and password required"
    | FetchFailed(reason: string)     // anything the remote fetch raises
    | InvalidTime                     // RangeError "Invalid time value" from toISOString

  datatype Result<+T> = Ok(value: T) | Fail(error: Error) {
    predicate IsFailure() { Fail? }
    function PropagateFailure<U>(): Result<U>
      requires Fail?
    {
      Fail(error)
    }
    function Extract(): T
      requires Ok?
    {
      value
    }
  }
}
