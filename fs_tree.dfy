/**
 * An abstract, in-memory file system: the tree the walker lists and renders.
 *
 * Every file-system call the walker makes through a path (`symlink_metadata`,
 * `metadata`, `read_dir`, `read_link`, `read_to_string`) is answered here by a
 * function of the node found at that path. Symbolic links only name their
 * target, so a link never leads into another part of the tree: cycles through
 * links exist only as text, which is exactly what the walker sees of them.
 */
module FsTree {
  import opened Wrappers

  /** The type reported by a metadata call (`fs::FileType`). */
  datatype FileType = DirKind | FileKind | SymlinkKind | OtherKind {
    predicate IsDir() { DirKind? }
    predicate IsFile() { FileKind? }
    predicate IsSymlink() { SymlinkKind? }
  }

  /** A path, as its components below the scanned root; the root itself is []. */
  type Path = seq<string>

  datatype Node =
      /** A regular file; `content` is what reading it as text gives: its lines, or the error. */
    | File(name: string, content: Result<seq<string>, string>)
      /** A directory; `readable` is false when listing it fails. */
    | Dir(name: string, children: seq<Node>, readable: bool)
      /** A symbolic link; `target` is what reading the link gives (None: unreadable),
          `followed` the type that metadata through the link reports (None: dangling). */
    | Symlink(name: string, target: Option<string>, followed: Option<FileType>)
      /** A socket, FIFO or device: neither file, directory nor link. */
    | Special(name: string)
      /** An entry the listing yields but cannot describe: its un-followed metadata
          fails, or iterating the directory failed at that point. */
    | Unstatable(name: string)

  /** `fs::read_dir`: the children of a readable directory, nothing otherwise. */
  function ReadDir(n: Node): Option<seq<Node>> {
    if n.Dir? && n.readable then Some(n.children) else None
  }

  /** The children the walker can see below `n`. */
  function Children(n: Node): seq<Node> {
    ReadDir(n).GetOr([])
  }

  /** `fs::symlink_metadata(..).file_type()`: the type without following a link. */
  function SymlinkMetadata(n: Node): Option<FileType> {
    match n
    case File(_, _) => Some(FileKind)
    case Dir(_, _, _) => Some(DirKind)
    case Symlink(_, _, _) => Some(SymlinkKind)
    case Special(_) => Some(OtherKind)
    case Unstatable(_) => None
  }

  /** `fs::metadata(..).file_type()`: the type after following a link. */
  function Metadata(n: Node): Option<FileType> {
    if n.Symlink? then n.followed else SymlinkMetadata(n)
  }

  /** `fs::read_link`: the target of a link; fails on anything else. */
  function ReadLink(n: Node): Option<string> {
    if n.Symlink? then n.target else None
  }

  /** `fs::read_to_string(..).lines()`: the lines of a file, or why it could not be read. */
  function ReadToString(n: Node): Result<seq<string>, string> {
    if n.File? then n.content else Failure("not a regular file")
  }
}
