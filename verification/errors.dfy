/**
  The error values the pairtree tools return, and the result wrappers used
  throughout the model.  The numbered errors mirror the constants of
  pkg/error-msgs/error_msgs.go; the others stand for the operating-system
  errors the Go code passes through unchanged.
 */
module Errors {

  datatype Error =
    | PrefixFileEmpty     // Err1: pairtree_prefix exists but is empty
    | VersionFileEmpty    // Err2: the version file is empty
    | RootEmpty           // Err3: the pairtree root is blank
    | IdEmpty             // Err4: the id is blank
    | IdLacksPrefix       // Err5: the id does not start with the prefix
    | NoId                // Err6: no id argument was given
    | RootNotSet          // Err7: neither --pairtree nor PAIRTREE_ROOT is set
    | TooManyArgs         // Err8: more positional arguments than expected
    | TooFewArgs          // Err9: fewer positional arguments than expected
    | OutsidePairtree     // Err10: neither side of a copy/move carries the prefix
    | ArchiveWithSubpath  // Err11: -a and -n used together
    | NotOneFolder        // Err12: the extracted archive is not exactly one folder
    | FolderIdMismatch    // Err13: the archive's folder is not named after the id
    | NotExist            // os.ErrNotExist
    | NotADirectory       // ENOTDIR: a directory operation met a file
    | ReadFailed          // a marker file exists but cannot be read
    | ArchiveUnreadable   // the archiving library cannot read the .tgz
    | InvalidPath         // EINVAL: os.RemoveAll refuses a path whose last element is "."
    | AlreadyExists       // the archiving library refuses to replace an existing file

  /** A value or an error, like Go's (T, error) pair. */
  datatype Result<+T> = Ok(value: T) | Err(error: Error)

  /** An error or nothing, like a bare Go `error` return. */
  datatype Outcome = Pass | Failed(error: Error)

  datatype Option<+T> = None | Some(value: T)
}
