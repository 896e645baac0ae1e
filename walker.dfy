/**
 * `walk_dir` as the program runs it: one activation per directory, writing
 * each line as soon as it is formed, depth-first.
 */
module Walker {
  import opened Wrappers
  import opened FsTree
  import opened Lister
  import opened Ordering
  import opened Render
  import opened RenderFacts

  /** The line-oriented writer `walk_dir` writes to; `lines` is everything written so far. */
  class LineSink {
    var lines: seq<string>

    constructor ()
      ensures lines == []
    {
      lines := [];
    }

    /** `writeln!(writer, ...)`. */
    method WriteLine(s: string)
      modifies this
      ensures lines == old(lines) + [s]
    {
      lines := lines + [s];
    }
  }

  /** The inlined content of a regular file: start marker, each line, end marker; or the read diagnostic. */
  method WriteContent(sink: LineSink, entry: DirEntryInfo, prefix: string, depth: nat)
    modifies sink
    ensures sink.lines == old(sink.lines) + Texts(FileLines(entry, prefix, depth))
  {
    var indent := prefix + CONTENT_INDENT;
    ghost var ls := FileLines(entry, prefix, depth);
    match ReadToString(entry.node)
    case Success(content) =>
      ghost var body := seq(|content|, k requires 0 <= k < |content| => ContentLine(depth, indent, content[k]));
      ghost var start := sink.lines;
      sink.WriteLine(indent + CONTENT_START);
      assert Texts([ContentLine(depth, indent, CONTENT_START)]) == [indent + CONTENT_START];
      assert [ContentLine(depth, indent, CONTENT_START)] + body[..0] == [ContentLine(depth, indent, CONTENT_START)];
      for k := 0 to |content|
        invariant sink.lines == start + Texts([ContentLine(depth, indent, CONTENT_START)] + body[..k])
      {
        ghost var pre := [ContentLine(depth, indent, CONTENT_START)] + body[..k];
        TextsAppend(pre, [body[k]]);
        assert Texts([body[k]]) == [Text(body[k])];
        assert pre + [body[k]] == [ContentLine(depth, indent, CONTENT_START)] + body[..k + 1];
        sink.WriteLine(indent + content[k]);
        assert start + Texts(pre) + [Text(body[k])] == start + (Texts(pre) + [Text(body[k])]);
      }
      assert body[..|content|] == body;
      TextsAppend([ContentLine(depth, indent, CONTENT_START)] + body, [ContentLine(depth, indent, CONTENT_END)]);
      assert Texts([ContentLine(depth, indent, CONTENT_END)]) == [indent + CONTENT_END];
      sink.WriteLine(indent + CONTENT_END);
      assert start + Texts([ContentLine(depth, indent, CONTENT_START)] + body) + [indent + CONTENT_END]
          == start + (Texts([ContentLine(depth, indent, CONTENT_START)] + body) + [indent + CONTENT_END]);
      assert ls == [ContentLine(depth, indent, CONTENT_START)] + body + [ContentLine(depth, indent, CONTENT_END)];
    case Failure(err) =>
      FileLinesText(entry, prefix, depth);
      sink.WriteLine(indent + "[Could not read file: " + err + "]");
  }

  /**
   * `walk_dir(dir, output_path, writer, prefix, depth, max_depth, ascii,
   * show_content, is_root)`: appends exactly the lines of `RenderDir`.
   */
  method WalkDir(sink: LineSink, dir: Node, path: Path, cfg: WalkConfig, prefix: string, depth: nat, isRoot: bool)
    modifies sink
    ensures sink.lines == old(sink.lines) + Texts(RenderDir(dir, path, cfg, prefix, depth, isRoot))
    decreases dir, 1, 0
  {
    if cfg.maxDepth.Some? && depth >= cfg.maxDepth.value {
      return;
    }
    var entries := ReadDirEntries(dir, path);
    if cfg.outputPath.Some? {
      entries := Retain(entries, cfg.outputPath.value);
    }
    entries := SortEntries(entries);
    assert entries == Entries(dir, path, cfg);

    assert RenderDir(dir, path, cfg, prefix, depth, isRoot) == RenderEntries(dir, entries, 0, cfg, prefix, depth, isRoot);
    WriteEntries(sink, dir, entries, cfg, prefix, depth, isRoot);
  }

  /** The loop of `walk_dir` over its sorted entries. */
  method WriteEntries(sink: LineSink, dir: Node, entries: seq<DirEntryInfo>, cfg: WalkConfig,
                      prefix: string, depth: nat, isRoot: bool)
    requires forall e | e in entries :: e.node in Children(dir)
    modifies sink
    ensures sink.lines == old(sink.lines) + Texts(RenderEntries(dir, entries, 0, cfg, prefix, depth, isRoot))
    decreases dir, 0, 2
  {
    ghost var total := old(sink.lines) + Texts(RenderEntries(dir, entries, 0, cfg, prefix, depth, isRoot));
    var idx := 0;
    while idx < |entries|
      invariant 0 <= idx <= |entries|
      invariant sink.lines + Texts(RenderEntries(dir, entries, idx, cfg, prefix, depth, isRoot)) == total
      decreases |entries| - idx
    {
      var isLast := idx == |entries| - 1;
      ghost var before := sink.lines;
      ghost var block := RenderEntry(dir, entries[idx], isLast, cfg, prefix, depth, isRoot);
      ghost var rest := RenderEntries(dir, entries, idx + 1, cfg, prefix, depth, isRoot);
      assert RenderEntries(dir, entries, idx, cfg, prefix, depth, isRoot) == block + rest;
      WriteEntry(sink, dir, entries[idx], isLast, cfg, prefix, depth, isRoot);
      LoopStep(before, sink.lines, block, rest, total);
      idx := idx + 1;
    }
    assert RenderEntries(dir, entries, idx, cfg, prefix, depth, isRoot) == [];
  }

  /** One iteration of the loop in `walk_dir`: the entry's line, its content, then its subtree. */
  method WriteEntry(sink: LineSink, dir: Node, entry: DirEntryInfo, isLast: bool, cfg: WalkConfig,
                    prefix: string, depth: nat, isRoot: bool)
    requires entry.node in Children(dir)
    modifies sink
    ensures sink.lines == old(sink.lines) + Texts(RenderEntry(dir, entry, isLast, cfg, prefix, depth, isRoot))
    decreases dir, 0, 1
  {
    ghost var head := HeadLine(entry, isLast, cfg, prefix, depth, isRoot);
    ghost var content := ContentOf(entry, cfg, prefix, depth);
    ghost var sub := SubtreeOf(dir, entry, isLast, cfg, prefix, depth, isRoot);

    var g := GlyphsFor(cfg.ascii);
    var branch := if isLast then g.elbow else g.tee;
    var name := entry.fileName;
    if entry.fileType.IsDir() {
      name := name + "/";
    }
    var displayName := name;
    if entry.fileType.IsSymlink() {
      match ReadLink(entry.node)
      case Some(target) => displayName := name + " -> " + target;
      case None => displayName := name + " -> <unreadable>";
    }
    assert displayName == DisplayName(entry);
    assert [head][1..] == [];
    assert Texts([head]) == [Text(head)];
    if !isRoot {
      assert Text(head) == prefix + branch + displayName;
      sink.WriteLine(prefix + branch + displayName);
    } else {
      assert Text(head) == branch + displayName;
      sink.WriteLine(branch + displayName);
    }
    ghost var t1 := Texts([head]);
    assert sink.lines == old(sink.lines) + t1;

    if entry.fileType.IsFile() && cfg.showContent {
      WriteContent(sink, entry, prefix, depth);
    }
    ghost var t2 := Texts(content);
    assert sink.lines == old(sink.lines) + t1 + t2;

    if entry.fileType.IsDir() && !entry.isSymlinkDir {
      var newPrefix := if isLast then
                         (if isRoot then g.space else prefix + g.space)
                       else
                         (if isRoot then g.pipe else prefix + g.pipe);
      assert newPrefix == ChildPrefix(prefix, isLast, isRoot, g);
      WalkDir(sink, entry.node, entry.path, cfg, newPrefix, depth + 1, false);
    }
    ghost var t3 := Texts(sub);
    assert sink.lines == old(sink.lines) + t1 + t2 + t3;

    TextsAppend([head], content);
    TextsAppend([head] + content, sub);
    assert RenderEntry(dir, entry, isLast, cfg, prefix, depth, isRoot) == [head] + content + sub;
    assert Texts([head] + content + sub) == t1 + t2 + t3;
    Regroup(old(sink.lines), t1, t2, t3);
  }

  /** Writing one iteration's lines leaves exactly the later iterations' lines to write. */
  lemma LoopStep(before: seq<string>, after: seq<string>, block: seq<Line>, rest: seq<Line>, total: seq<string>)
    requires before + Texts(block + rest) == total
    requires after == before + Texts(block)
    ensures after + Texts(rest) == total
  {
    TextsAppend(block, rest);
    assert before + Texts(block) + Texts(rest) == before + (Texts(block) + Texts(rest));
  }

  /**
   * Associativity for four pieces, as a lemma of its own: asserted inside
   * `WriteEntry` the solver meets it with the whole rendering in scope.
   */
  lemma Regroup(a: seq<string>, b: seq<string>, c: seq<string>, d: seq<string>)
    ensures a + b + c + d == a + (b + c + d)
  {
  }
}
