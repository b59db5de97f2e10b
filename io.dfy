/**
 * The abstract filesystem vocabulary shared by the model: paths relative to
 * the book's `src` directory, the I/O operations that can fail, and the
 * `std::io::Result` shapes the generator returns.
 */
module Io {

  /** A path relative to the book's `src` directory, with `/` separators. */
  type Path = string

  datatype Option<T> = None | Some(value: T)

  /** The I/O calls of the generator that can fail and stop the pass. */
  datatype IoOp =
    | ReadReadme     // opening or reading a directory's README.md
    | ReadDir        // listing a walked directory
    | ReadFileType   // asking a child entry for its file type
    | WriteReadme    // writing the rewritten README.md back

  /** An I/O failure, with the path it happened on. */
  datatype IoError = IoError(op: IoOp, path: Path)

  /** `std::io::Result<T>`. */
  datatype Result<T> = Ok(value: T) | Err(error: IoError)

  /** `std::io::Result<()>`. */
  datatype Outcome = Done | Failed(error: IoError)
}
