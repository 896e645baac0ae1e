/**
 * What `walk_dir` writes, as a function: the lines for one directory and,
 * depth-first, for the directories below it. Each line records the depth of
 * the `walk_dir` activation that writes it; `Text` gives the exact string.
 */
module Render {
  import opened Wrappers
  import opened FsTree
  import opened Lister
  import opened Ordering

  /** Branch glyphs (`tee`, `elbow`) and prefix blocks (`pipe`, `space`). */
  datatype Glyphs = Glyphs(tee: string, elbow: string, pipe: string, space: string)

  function GlyphsFor(ascii: bool): Glyphs {
    if ascii then Glyphs("|-- ", "`-- ", "|   ", "    ")
    else Glyphs("├── ", "└── ", "│   ", "    ")
  }

  /** In both styles every glyph and block is four characters wide, and the two glyphs and the two blocks differ. */
  lemma GlyphWidths(ascii: bool)
    ensures var g := GlyphsFor(ascii);
            && |g.tee| == |g.elbow| == |g.pipe| == |g.space| == 4
            && g.tee != g.elbow && g.pipe != g.space
  {
  }

  const CONTENT_INDENT: string := "    "
  const CONTENT_START: string := "--- FILE CONTENT START ---"
  const CONTENT_END: string := "--- FILE CONTENT END ---"

  /** The parameters `walk_dir` passes unchanged down the recursion. */
  datatype WalkConfig = WalkConfig(
    outputPath: Option<Path>,
    maxDepth: Option<nat>,
    ascii: bool,
    showContent: bool)

  datatype Line =
      /** An entry's line: `lead` (the prefix, empty at the root level), glyph, display name. */
    | TreeLine(depth: nat, lead: string, glyph: string, display: string, entry: DirEntryInfo)
      /** A content marker, content line or read diagnostic below a file. */
    | ContentLine(depth: nat, indent: string, text: string)

  function Text(l: Line): string {
    match l
    case TreeLine(_, lead, glyph, display, _) => lead + glyph + display
    case ContentLine(_, indent, text) => indent + text
  }

  function Texts(ls: seq<Line>): (r: seq<string>)
    ensures |r| == |ls|
  {
    if ls == [] then [] else [Text(ls[0])] + Texts(ls[1..])
  }

  /** The text of every line, in order. */
  lemma {:induction false} TextsAt(ls: seq<Line>)
    ensures forall i | 0 <= i < |ls| :: Texts(ls)[i] == Text(ls[i])
  {
    if ls != [] {
      TextsAt(ls[1..]);
      forall i | 0 < i < |ls|
        ensures Texts(ls)[i] == Text(ls[i])
      {
        assert ls[1..][i - 1] == ls[i];
      }
    }
  }

  lemma TextsAppend(a: seq<Line>, b: seq<Line>)
    ensures Texts(a + b) == Texts(a) + Texts(b)
  {
    var l, r := Texts(a + b), Texts(a) + Texts(b);
    TextsAt(a + b);
    TextsAt(a);
    TextsAt(b);
    forall i | 0 <= i < |l|
      ensures l[i] == r[i]
    {
      if i < |a| {
        assert (a + b)[i] == a[i];
      } else {
        assert (a + b)[i] == b[i - |a|];
      }
    }
  }

  /** The depth limit is reached: nothing is listed at this level or below. */
  predicate Pruned(maxDepth: Option<nat>, depth: nat) {
    maxDepth.Some? && depth >= maxDepth.value
  }

  /** The entries `walk_dir` iterates over: listed, self-excluded, sorted. */
  function Entries(dir: Node, path: Path, cfg: WalkConfig): (r: seq<DirEntryInfo>)
    ensures forall e | e in r :: e in Listing(dir, path)
    ensures forall e | e in r :: e.node in Children(dir)
    ensures cfg.outputPath.Some? ==> forall e | e in r :: e.path != cfg.outputPath.value
  {
    var listed := Listing(dir, path);
    var kept := if cfg.outputPath.Some? then Retain(listed, cfg.outputPath.value) else listed;
    var r := SortEntries(kept);
    assert forall e | e in r :: e in multiset(kept);
    r
  }

  /** The name shown for an entry: `/` after a directory, the link target after a link. */
  function DisplayName(e: DirEntryInfo): (r: string)
    ensures e.fileName <= r
    ensures r == e.fileName <==> !e.fileType.IsDir() && !e.fileType.IsSymlink()
  {
    var name := if e.fileType.IsDir() then e.fileName + "/" else e.fileName;
    if e.fileType.IsSymlink() then
      match ReadLink(e.node)
      case Some(target) => name + " -> " + target
      case None => name + " -> <unreadable>"
    else name
  }

  /** The prefix a directory's children are drawn with. */
  function ChildPrefix(prefix: string, isLast: bool, isRoot: bool, g: Glyphs): string {
    var block := if isLast then g.space else g.pipe;
    if isRoot then block else prefix + block
  }

  function HeadLine(e: DirEntryInfo, isLast: bool, cfg: WalkConfig, prefix: string, depth: nat, isRoot: bool): Line {
    var g := GlyphsFor(cfg.ascii);
    TreeLine(depth, if isRoot then "" else prefix, if isLast then g.elbow else g.tee, DisplayName(e), e)
  }

  /** The lines inlined below a regular file when content is shown. */
  function FileLines(e: DirEntryInfo, prefix: string, depth: nat): (r: seq<Line>)
    ensures |r| >= 1
    ensures forall l | l in r :: l.ContentLine? && l.depth == depth && l.indent == prefix + CONTENT_INDENT
  {
    var indent := prefix + CONTENT_INDENT;
    match ReadToString(e.node)
    case Success(lines) =>
      [ContentLine(depth, indent, CONTENT_START)]
      + seq(|lines|, k requires 0 <= k < |lines| => ContentLine(depth, indent, lines[k]))
      + [ContentLine(depth, indent, CONTENT_END)]
    case Failure(err) =>
      [ContentLine(depth, indent, "[Could not read file: " + err + "]")]
  }

  /** `walk_dir(dir, ..., prefix, depth, ..., is_root)`. */
  function RenderDir(dir: Node, path: Path, cfg: WalkConfig, prefix: string, depth: nat, isRoot: bool): seq<Line>
    decreases dir, 1
  {
    if Pruned(cfg.maxDepth, depth) then []
    else RenderEntries(dir, Entries(dir, path, cfg), 0, cfg, prefix, depth, isRoot)
  }

  /** The iterations of the loop over `entries` from index `from` on. */
  function RenderEntries(parent: Node, entries: seq<DirEntryInfo>, from: nat, cfg: WalkConfig,
                         prefix: string, depth: nat, isRoot: bool): seq<Line>
    requires from <= |entries|
    requires forall e | e in entries :: e.node in Children(parent)
    decreases parent, 0, |entries| - from + 2
  {
    if from == |entries| then []
    else RenderEntry(parent, entries[from], from == |entries| - 1, cfg, prefix, depth, isRoot)
         + RenderEntries(parent, entries, from + 1, cfg, prefix, depth, isRoot)
  }

  /** One iteration: the entry's line, its content, then the subtree of a real directory. */
  function RenderEntry(parent: Node, e: DirEntryInfo, isLast: bool, cfg: WalkConfig,
                       prefix: string, depth: nat, isRoot: bool): seq<Line>
    requires e.node in Children(parent)
    decreases parent, 0, 1
  {
    [HeadLine(e, isLast, cfg, prefix, depth, isRoot)]
    + ContentOf(e, cfg, prefix, depth)
    + SubtreeOf(parent, e, isLast, cfg, prefix, depth, isRoot)
  }

  /** Content is inlined only for what the un-followed type calls a regular file. */
  function ContentOf(e: DirEntryInfo, cfg: WalkConfig, prefix: string, depth: nat): seq<Line> {
    if e.fileType.IsFile() && cfg.showContent then FileLines(e, prefix, depth) else []
  }

  /** `walk_dir` descends into an entry whose un-followed type is a directory and that is no link. */
  predicate Descends(e: DirEntryInfo) {
    e.fileType.IsDir() && !e.isSymlinkDir
  }

  function SubtreeOf(parent: Node, e: DirEntryInfo, isLast: bool, cfg: WalkConfig,
                     prefix: string, depth: nat, isRoot: bool): seq<Line>
    requires e.node in Children(parent)
    decreases parent, 0, 0
  {
    if Descends(e)
    then RenderDir(e.node, e.path, cfg, ChildPrefix(prefix, isLast, isRoot, GlyphsFor(cfg.ascii)), depth + 1, false)
    else []
  }
}
