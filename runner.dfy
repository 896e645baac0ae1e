/** `run` and `display_root_name`: the root line, then the walk from the start directory. */
module Runner {
  import opened Wrappers
  import opened FsTree
  import opened Lister
  import opened Render
  import opened RenderFacts
  import opened Walker
  import opened Cli

  /** A piece between two `/`; empty pieces and `.` are not components. */
  function Emit(piece: string): seq<string> {
    if piece == "" || piece == "." then [] else [piece]
  }

  /** The components of the rest `p` of a Unix path, `cur` being the piece read so far. */
  function Pieces(p: string, cur: string): seq<string>
    decreases |p|
  {
    if p == [] then Emit(cur)
    else if p[0] == '/' then Emit(cur) + Pieces(p[1..], "")
    else Pieces(p[1..], cur + [p[0]])
  }

  /** `Path::file_name`: the last component, unless there is none or it is `..`; always a plain name. */
  function FileName(p: string): (r: Option<string>)
    ensures r.Some? ==> r.value != "" && r.value != "." && r.value != ".." && '/' !in r.value
  {
    PiecesAreNames(p, "");
    var cs := Pieces(p, "");
    if cs != [] && cs[|cs| - 1] != ".." then
      assert cs[|cs| - 1] in cs;
      Some(cs[|cs| - 1])
    else None
  }

  /** `display_root_name`: the start directory's own name, else the path as given; never absent. */
  function DisplayRootName(p: string): (r: Option<string>)
    ensures r.Some?
    ensures FileName(p).Some? ==> r == FileName(p)
    ensures FileName(p).None? ==> r == Some(p)
  {
    match FileName(p)
    case Some(name) => Some(name)
    case None => Some(p)
  }

  /** The first line of the output. */
  function RootLabel(p: string): string {
    DisplayRootName(p).GetOr(".")
  }

  /** Every component is a non-empty piece without `/` other than `.`. */
  lemma {:induction false} PiecesAreNames(p: string, cur: string)
    requires '/' !in cur
    ensures forall x | x in Pieces(p, cur) :: x != "" && x != "." && '/' !in x
    decreases |p|
  {
    if p != [] {
      if p[0] == '/' {
        PiecesAreNames(p[1..], "");
      } else {
        PiecesAreNames(p[1..], cur + [p[0]]);
      }
    }
  }

  lemma {:induction false} PiecesJoin(x: string, y: string, cur: string)
    ensures Pieces(x + "/" + y, cur) == Pieces(x, cur) + Pieces(y, "")
    decreases |x|
  {
    if x == [] {
      assert x + "/" + y == "/" + y;
      assert ("/" + y)[1..] == y;
    } else {
      assert (x + "/" + y)[0] == x[0];
      assert (x + "/" + y)[1..] == x[1..] + "/" + y;
      if x[0] == '/' {
        PiecesJoin(x[1..], y, "");
      } else {
        PiecesJoin(x[1..], y, cur + [x[0]]);
      }
    }
  }

  lemma {:induction false} PiecesPlain(y: string, cur: string)
    requires '/' !in y
    ensures Pieces(y, cur) == Emit(cur + y)
    decreases |y|
  {
    if y == [] {
      assert cur + y == cur;
    } else {
      assert y[0] in y;
      assert (cur + [y[0]]) + y[1..] == cur + y;
      assert forall k | 0 <= k < |y[1..]| :: y[1..][k] in y;
      PiecesPlain(y[1..], cur + [y[0]]);
    }
  }

  /**
   * The root line names the directory itself: for a start path `d/n` whose
   * last piece `n` is a plain name, the root line is `n`.
   */
  lemma RootLabelOfJoin(d: string, n: string)
    requires n != "" && n != "." && n != ".." && '/' !in n
    ensures RootLabel(d + "/" + n) == n
  {
    PiecesJoin(d, n, "");
    PiecesPlain(n, "");
    assert "" + n == n;
  }

  /** A trailing `/` does not change the name. */
  lemma FileNameTrailingSlash(d: string)
    ensures FileName(d + "/") == FileName(d)
  {
    PiecesJoin(d, "", "");
    assert d + "/" + "" == d + "/";
    assert Pieces(d, "") + [] == Pieces(d, "");
  }

  /**
   * A path with no name of its own is shown as given: the empty path, `/`,
   * `.`, `..` and any path ending in `/..`.
   */
  lemma RootLabelWithoutName(p: string)
    ensures FileName("").None? && FileName("/").None? && FileName(".").None? && FileName("..").None?
    ensures FileName(p + "/..").None?
    ensures FileName(p).None? ==> RootLabel(p) == p
  {
    assert Pieces("/", "") == Emit("") + Pieces("", "");
    assert Pieces(".", "") == Pieces("", ".");
    assert Pieces("..", "") == Pieces(".", ".");
    PiecesJoin(p, "..", "");
    PiecesPlain("..", "");
    assert "" + ".." == "..";
    assert p + "/.." == p + "/" + "..";
    var cs := Pieces(p + "/..", "");
    assert cs == Pieces(p, "") + [".."];
    assert cs[|cs| - 1] == "..";
  }

  /** The walk parameters `run` derives from the configuration: the output file is excluded only when it is written. */
  function WalkConfigOf(config: Config): WalkConfig {
    WalkConfig(if config.toStdout then None else Some([OUTPUT_FILE_NAME]),
               config.maxDepth, config.ascii, config.showContent)
  }

  /** The lines below the root line. */
  function TreeLines(config: Config, root: Node): seq<Line> {
    RenderDir(root, [], WalkConfigOf(config), "", 0, true)
  }

  /** Everything `run` writes for a start directory: the root line, then the tree. */
  function TreeOutput(config: Config, root: Node): (out: seq<string>)
    ensures |out| >= 1 && out[0] == RootLabel(config.startDir)
  {
    [RootLabel(config.startDir)] + Texts(TreeLines(config, root))
  }

  /** Why `run` fails before writing anything. */
  datatype RunError = StatFailed | NotADirectory(message: string)

  /**
   * `run`: the start directory must exist and be a directory (following
   * links); then the root line and the walk go to `sink`. `root` is the node
   * the start path names once links are followed: a link node only names its
   * target, so the directory it leads to is not reachable from it here.
   */
  method Run(sink: LineSink, config: Config, root: Node) returns (r: Result<(), RunError>)
    requires !root.Symlink?
    modifies sink
    ensures Metadata(root).None? ==> r == Failure(StatFailed) && sink.lines == old(sink.lines)
    ensures Metadata(root).Some? && !Metadata(root).value.IsDir() ==>
              r == Failure(NotADirectory("Path is not a directory: " + config.startDir)) && sink.lines == old(sink.lines)
    ensures Metadata(root) == Some(DirKind) ==>
              r == Success(()) && sink.lines == old(sink.lines) + TreeOutput(config, root)
  {
    var startMeta := Metadata(root);
    if startMeta.None? {
      return Failure(StatFailed);
    }
    if !startMeta.value.IsDir() {
      return Failure(NotADirectory("Path is not a directory: " + config.startDir));
    }
    WriteTree(sink, config, root);
    return Success(());
  }

  /** What `run` writes once the start directory is found: the root line, then the walk from depth 0. */
  method WriteTree(sink: LineSink, config: Config, root: Node)
    modifies sink
    ensures sink.lines == old(sink.lines) + TreeOutput(config, root)
  {
    var outputPath := if config.toStdout then None else Some([OUTPUT_FILE_NAME]);
    var cfg := WalkConfig(outputPath, config.maxDepth, config.ascii, config.showContent);
    assert cfg == WalkConfigOf(config);
    sink.WriteLine(DisplayRootName(config.startDir).GetOr("."));
    WalkDir(sink, root, [], cfg, "", 0, true);
    RootLineFirst(old(sink.lines), config, root);
  }

  /** The root line followed by the walk's lines is `TreeOutput`, after whatever was written before. */
  lemma RootLineFirst(start: seq<string>, config: Config, root: Node)
    ensures start + [RootLabel(config.startDir)] + Texts(TreeLines(config, root)) == start + TreeOutput(config, root)
  {
  }

  /** `--max-depth 0` prints only the root line. */
  lemma MaxDepthZero(config: Config, root: Node)
    requires config.maxDepth == Some(0)
    ensures TreeOutput(config, root) == [RootLabel(config.startDir)]
  {
  }

  /**
   * `--max-depth 1` lists the start directory's own entries only: every
   * line is at depth 0, entry lines carry no prefix and content lines are
   * indented by four spaces exactly.
   */
  lemma MaxDepthOne(config: Config, root: Node)
    requires config.maxDepth == Some(1)
    ensures forall l | l in TreeLines(config, root) ::
              && l.depth == 0
              && (l.TreeLine? ==> l.lead == "")
              && (l.ContentLine? ==> l.indent == CONTENT_INDENT)
  {
    var cfg := WalkConfigOf(config);
    RenderDirBounded(root, [], cfg, "", 0, true);
    RenderDirShaped(root, [], cfg, "", 0, true);
    forall l | l in TreeLines(config, root)
      ensures l.ContentLine? ==> l.indent == CONTENT_INDENT
    {
      assert Bounded(l, [], cfg, 0);
      if l.ContentLine? {
        assert l.indent[0..] == l.indent;
      }
    }
  }

  /**
   * At every depth: no line below the depth limit, no entry named
   * `node_modules`, `.git` or `target`, and, when the tree goes to
   * `files.txt`, never that file itself.
   */
  lemma TreeExclusions(config: Config, root: Node)
    ensures forall l | l in TreeLines(config, root) ::
              && (config.maxDepth.Some? ==> l.depth < config.maxDepth.value)
              && (l.TreeLine? ==> l.entry.fileName !in EXCLUDED_NAMES)
              && (l.TreeLine? && !config.toStdout ==> l.entry.path != [OUTPUT_FILE_NAME])
  {
    RenderDirBounded(root, [], WalkConfigOf(config), "", 0, true);
  }

  lemma {:induction false} TreeLinesAtIn(ls: seq<Line>, d: nat, l: Line)
    requires l in TreeLinesAt(ls, d)
    ensures l in ls
  {
    if ls[0] != l {
      TreeLinesAtIn(ls[1..], d, l);
    }
  }

  /**
   * When the tree goes to standard output nothing is self-excluded: a
   * describable `files.txt` in the start directory is listed like any file.
   */
  lemma StdoutListsOutputFile(config: Config, root: Node, c: Node)
    requires config.toStdout && config.maxDepth != Some(0)
    requires c in Children(root) && !c.Unstatable? && c.name == OUTPUT_FILE_NAME
    ensures exists l | l in TreeLines(config, root) :: l.TreeLine? && l.entry.node == c
  {
    var cfg := WalkConfigOf(config);
    assert !Pruned(cfg.maxDepth, 0);
    var out := TreeLines(config, root);
    var es := Entries(root, [], cfg);
    ChildListed(root, [], cfg, c);
    var i :| 0 <= i < |es| && es[i] == EntryFor(c, []).value;
    LevelHeads(root, [], cfg, "", 0, true);
    var h := TreeLinesAt(out, 0);
    assert h[i] == HeadLine(es[i], i == |es| - 1, cfg, "", 0, true);
    TreeLinesAtIn(out, 0, h[i]);
    assert h[i].TreeLine? && h[i].entry.node == c;
  }
}
