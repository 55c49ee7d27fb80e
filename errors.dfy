/** Error values and the result wrappers shared by every component. */
module Errors {

  datatype Option<+T> = None | Some(value: T)

  /** A value or the error that replaced it (Go's `(T, error)` pair). */
  datatype Result<+T> = Ok(value: T) | Err(error: Error)

  /** Success or the error that stopped the operation (Go's lone `error`). */
  datatype Outcome = Pass | Fail(error: Error)

  datatype Error =
    // filesystem errors of the host
    | NotExist(path: string)
    | NotDir(path: string)
    | EntryExists(path: string)
    | DirNotEmpty(path: string)
    | NotLink(path: string)
    | IsRoot
    // archive extraction
    | BadArchive(path: string)
    | IllegalPath(path: string)
    // network
    | Network(url: string)
    | ReleaseNotFound(tag: string)
    // command policy
    | NoSuitableAsset
    | NotInstalled(version: string)
    | ActiveNow(version: string)
    | VersionIncorrect(version: string)
    | RunNotInstalled(version: string)
    | UnsafeVersion(version: string)

}
