/**
 * What `Node::root_from_file` learns from the operating system, as a value.
 * Each `Entry` is the filesystem's answer for one path: whether `metadata()`
 * succeeded, what `file_name()` gave, the metadata, and, for a directory, what
 * `read_dir` listed. The real calls are not modelled; only their answers are.
 */
module Fs {
  import opened Wrappers

  /** The kinds of `std::io::Error` the builder tells apart; every other kind is `OtherKind`. */
  datatype ErrorKind = PermissionDenied | NotFound | OtherKind(description: string)

  /** An `std::io::Error`, reduced to its kind and its message. */
  datatype IoError = IoError(kind: ErrorKind, message: string)

  /**
   * The fields of `Metadata` the builder reads. `created` stands for the number
   * the source derives from the creation time (`created().elapsed().as_secs()`).
   * `isSymlink` is `is_symlink()` of metadata that `Path::metadata` obtained by
   * following links, so no real entry has it set; it is kept so that the
   * builder's `IsSymlink` branch has a model.
   */
  datatype Metadata = Metadata(isFile: bool, isSymlink: bool, len: u64, created: u64)

  datatype Entry =
    /** `path.metadata()` failed. */
    | Inaccessible(path: string, cause: IoError)
    /** `path.metadata()` succeeded; `fileName` is `path.file_name()`. */
    | Accessible(path: string, fileName: Option<string>, meta: Metadata, listing: Listing)

  /** What `fs::read_dir` gives for the entry (only asked for when it is not a file). */
  datatype Listing = Listed(items: seq<DirItem>) | Unlistable(cause: IoError)

  /**
   * One element of the `read_dir` iterator: an error, or a child whose `path`
   * is the text `to_str().unwrap_or("")` gives (empty when not valid Unicode).
   */
  datatype DirItem = BadItem(cause: IoError) | Item(entry: Entry)
}
