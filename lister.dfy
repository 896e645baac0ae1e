/**
 * The directory lister: `read_dir_entries` and the self-exclusion `retain`
 * that `walk_dir` applies to its result.
 */
module Lister {
  import opened Wrappers
  import opened FsTree

  /** Names never listed, whatever the entry's type. */
  const EXCLUDED_NAMES: set<string> := {"node_modules", ".git", "target"}

  /** The name of the output artifact, placed in the scanned root. */
  const OUTPUT_FILE_NAME: string := "files.txt"

  /**
   * One listed child. `node` is what the file system holds at `path`: the
   * walker reaches the link target, the file's text and the directory's own
   * listing through it.
   */
  datatype DirEntryInfo = DirEntryInfo(
    path: Path,
    fileName: string,
    fileType: FileType,
    isSymlinkDir: bool,
    node: Node)

  /** The type an entry is classified with: link status first, then the node's own type. */
  function KindOf(c: Node): (r: FileType)
    requires !c.Unstatable?
    ensures SymlinkMetadata(c) == Some(r)
  {
    match c
    case File(_, _) => FileKind
    case Dir(_, _, _) => DirKind
    case Symlink(_, _, _) => SymlinkKind
    case Special(_) => OtherKind
  }

  /**
   * What the lister makes of child `c` of the directory at `dirPath`: nothing
   * when it cannot be described or its name is excluded, otherwise its entry.
   */
  function EntryFor(c: Node, dirPath: Path): (r: Option<DirEntryInfo>)
    ensures r.Some? <==> SymlinkMetadata(c).Some? && c.name !in EXCLUDED_NAMES
    ensures r.Some? ==> && r.value.node == c && r.value.fileName == c.name
                        && r.value.path == dirPath + [c.name]
                        && r.value.fileType == SymlinkMetadata(c).value
                        && (r.value.isSymlinkDir <==> r.value.fileType.IsSymlink() && Metadata(c) == Some(DirKind))
  {
    if c.Unstatable? || c.name in EXCLUDED_NAMES then None
    else Some(DirEntryInfo(dirPath + [c.name], c.name, KindOf(c),
                           c.Symlink? && c.followed == Some(DirKind), c))
  }

  /** The entries made of `cs`, in the order of `cs`. */
  function ListChildren(cs: seq<Node>, dirPath: Path): (r: seq<DirEntryInfo>)
    ensures |r| <= |cs|
    ensures forall e | e in r :: e.node in cs && EntryFor(e.node, dirPath) == Some(e)
  {
    if cs == [] then []
    else
      var init := ListChildren(cs[..|cs| - 1], dirPath);
      match EntryFor(cs[|cs| - 1], dirPath)
      case None => init
      case Some(e) => init + [e]
  }

  /** The listing of directory `dir` found at `dirPath`. */
  function Listing(dir: Node, dirPath: Path): (r: seq<DirEntryInfo>)
    ensures forall e | e in r :: e.node in Children(dir) && EntryFor(e.node, dirPath) == Some(e)
  {
    ListChildren(Children(dir), dirPath)
  }

  /**
   * `read_dir_entries`: an unreadable directory lists as empty; a child whose
   * un-followed metadata fails is skipped; a link keeps its un-followed type
   * and records separately whether its target is a directory; excluded names
   * are skipped.
   */
  method ReadDirEntries(dir: Node, dirPath: Path) returns (out: seq<DirEntryInfo>)
    ensures out == Listing(dir, dirPath)
  {
    var rd := ReadDir(dir);
    if rd.None? {
      return [];
    }
    var children := rd.value;
    out := [];
    for i := 0 to |children|
      invariant out == ListChildren(children[..i], dirPath)
    {
      assert children[..i + 1][..i] == children[..i];
      var c := children[i];
      var syMeta := SymlinkMetadata(c);
      if syMeta.None? {
        continue;
      }
      var ft := syMeta.value;
      var isSymlink := ft.IsSymlink();
      var fileType := if isSymlink then ft else Metadata(c).GetOr(ft);
      var isSymlinkDir := isSymlink && match Metadata(c) case Some(m) => m.IsDir() case None => false;
      if c.name in EXCLUDED_NAMES {
        continue;
      }
      out := out + [DirEntryInfo(dirPath + [c.name], c.name, fileType, isSymlinkDir, c)];
    }
    assert children[..|children|] == children;
  }

  /**
   * Every listed entry is a visible child that is neither undescribable nor
   * excluded, and carries its own name and path; its type is that of the
   * node without following links, so a link is never a directory and the
   * link-to-directory flag never coincides with the directory type.
   */
  lemma ListedEntry(dir: Node, dirPath: Path, e: DirEntryInfo)
    requires e in Listing(dir, dirPath)
    ensures e.node in Children(dir) && !e.node.Unstatable?
    ensures e.fileName == e.node.name && e.fileName !in EXCLUDED_NAMES
    ensures e.path == dirPath + [e.fileName]
    ensures e.fileType.IsDir() <==> e.node.Dir?
    ensures e.fileType.IsFile() <==> e.node.File?
    ensures e.fileType.IsSymlink() <==> e.node.Symlink?
    ensures e.isSymlinkDir <==> e.node.Symlink? && e.node.followed == Some(DirKind)
    ensures e.isSymlinkDir ==> !e.fileType.IsDir()
  {
  }

  /** Every describable child whose name is not excluded is listed. */
  lemma {:induction false} ListChildrenComplete(cs: seq<Node>, dirPath: Path, c: Node)
    requires c in cs && !c.Unstatable? && c.name !in EXCLUDED_NAMES
    ensures EntryFor(c, dirPath).Some? && EntryFor(c, dirPath).value in ListChildren(cs, dirPath)
  {
    if cs[|cs| - 1] != c {
      assert c in cs[..|cs| - 1];
      ListChildrenComplete(cs[..|cs| - 1], dirPath, c);
    }
  }

  /** A child of a readable directory is listed exactly when it is describable and not excluded. */
  lemma ListingExact(dir: Node, dirPath: Path, c: Node)
    requires c in Children(dir)
    ensures (exists e :: e in Listing(dir, dirPath) && e.node == c)
        <==> !c.Unstatable? && c.name !in EXCLUDED_NAMES
  {
    if !c.Unstatable? && c.name !in EXCLUDED_NAMES {
      ListChildrenComplete(Children(dir), dirPath, c);
    }
  }

  /** `entries.retain(|e| e.path != out_path)`: keeps, in order, the entries not at `outPath`. */
  function Retain(entries: seq<DirEntryInfo>, outPath: Path): (r: seq<DirEntryInfo>)
    ensures forall e | e in r :: e in entries && e.path != outPath
    ensures forall e | e in entries && e.path != outPath :: e in r
  {
    if entries == [] then []
    else if entries[0].path == outPath then Retain(entries[1..], outPath)
    else [entries[0]] + Retain(entries[1..], outPath)
  }

  /** `retain` works entry by entry, so it splits over a concatenation. */
  lemma {:induction false} RetainAppend(a: seq<DirEntryInfo>, b: seq<DirEntryInfo>, outPath: Path)
    ensures Retain(a + b, outPath) == Retain(a, outPath) + Retain(b, outPath)
  {
    if a != [] {
      assert (a + b)[0] == a[0];
      assert (a + b)[1..] == a[1..] + b;
      RetainAppend(a[1..], b, outPath);
    } else {
      assert a + b == b;
    }
  }

  lemma {:induction false} RetainKeepsAll(entries: seq<DirEntryInfo>, outPath: Path)
    requires forall e | e in entries :: e.path != outPath
    ensures Retain(entries, outPath) == entries
  {
    if entries != [] {
      RetainKeepsAll(entries[1..], outPath);
    }
  }

  /**
   * The output file sits in the scanned root, so self-exclusion removes at most
   * the root entry named `files.txt`: below the root, nothing is removed, and
   * an entry of that name in a subdirectory is listed.
   */
  lemma SelfExclusionOnlyAtRoot(dir: Node, dirPath: Path)
    requires dirPath != []
    ensures Retain(Listing(dir, dirPath), [OUTPUT_FILE_NAME]) == Listing(dir, dirPath)
  {
    forall e | e in Listing(dir, dirPath)
      ensures e.path != [OUTPUT_FILE_NAME]
    {
      assert |e.path| == |dirPath| + 1;
    }
    RetainKeepsAll(Listing(dir, dirPath), [OUTPUT_FILE_NAME]);
  }

  /**
   * At the root, self-exclusion drops exactly the entries named `files.txt`
   * (of any type) and keeps every other listed entry.
   */
  lemma SelfExclusionAtRoot(dir: Node, e: DirEntryInfo)
    requires e in Listing(dir, [])
    ensures e in Retain(Listing(dir, []), [OUTPUT_FILE_NAME]) <==> e.fileName != OUTPUT_FILE_NAME
  {
    ListedEntry(dir, [], e);
    assert e.path == [e.fileName];
    if e.path == [OUTPUT_FILE_NAME] {
      assert e.path[0] == OUTPUT_FILE_NAME;
    }
  }
}
