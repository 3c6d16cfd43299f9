/** The failures `unpacker` and `repacker` raise. */
module Errors {
  import opened Paths

  datatype Error =
    /** "Can't find <name> in <src>": a required archive file is not a regular file. */
    | FileNotFound(name: Path)
    /** "Can't find <name> directory in <src>". */
    | DirectoryNotFound(name: Path)
    /** "<name> is invalid": the index length disagrees with its record count. */
    | InvalidFile(name: Path)
    /** "<name> can't be repacked because files exceed the size limit". */
    | SizeLimitExceeded(name: Path)
    /** `std::filesystem::file_size` throws for a path that is not a regular file. */
    | FileSizeFailed(path: Path)

  datatype Result<T> = Ok(value: T) | Err(error: Error)
}
