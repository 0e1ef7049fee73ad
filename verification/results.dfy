/**
 * Results of the operations that can throw: a value, or the exception that
 * would have been raised, as data.
 */
module Results {

  /** The exceptions the modelled code can raise, one constructor per cause. */
  datatype Error =
    | DirectoryNotFound(path: seq<string>)  // a source directory, or the parent of a copy target, is missing
    | FileExists(path: seq<string>)         // a copy without overwrite onto a name that is already taken
    | PathBlocked(path: seq<string>)        // a directory cannot be created because a file is in the way
    | ReadFailed                            // reading an existing file failed
    | IndexOutOfRange                       // indexing an empty array
    | ArgumentOutOfRange                    // Substring with a negative length

  datatype Option<+T> = None | Some(value: T)

  datatype Result<+T> = Ok(value: T) | Err(error: Error)

  /** What an operation that returns nothing yields: normal completion or the exception it throws. */
  datatype Outcome = Pass | Fail(error: Error)
}
