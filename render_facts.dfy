/** What every rendering of a directory guarantees, at every depth. */
module RenderFacts {
  import opened Wrappers
  import opened FsTree
  import opened Lister
  import opened Ordering
  import opened Render

  /** What the lister and the self-exclusion guarantee of an entry of `dir` at `path`. */
  ghost predicate Placed(e: DirEntryInfo, dir: Node, path: Path, cfg: WalkConfig) {
    && e.node in Children(dir)
    && e.fileName !in EXCLUDED_NAMES
    && (cfg.outputPath.Some? ==> e.path != cfg.outputPath.value)
    && path < e.path
  }

  lemma EntriesPlaced(dir: Node, path: Path, cfg: WalkConfig)
    ensures forall e | e in Entries(dir, path, cfg) :: Placed(e, dir, path, cfg)
  {
    forall e | e in Entries(dir, path, cfg)
      ensures Placed(e, dir, path, cfg)
    {
      ListedEntry(dir, path, e);
    }
  }

  /** The entries a directory's loop runs over are exactly its listed entries other than the output file. */
  lemma EntriesExact(dir: Node, path: Path, cfg: WalkConfig, e: DirEntryInfo)
    ensures e in Entries(dir, path, cfg) <==>
              e in Listing(dir, path) && (cfg.outputPath.Some? ==> e.path != cfg.outputPath.value)
  {
    var listed := Listing(dir, path);
    var kept := if cfg.outputPath.Some? then Retain(listed, cfg.outputPath.value) else listed;
    assert multiset(Entries(dir, path, cfg)) == multiset(kept);
    assert e in Entries(dir, path, cfg) <==> e in multiset(kept);
  }

  /** Every describable child not excluded by name, and not the output file, is among the entries. */
  lemma ChildListed(dir: Node, path: Path, cfg: WalkConfig, c: Node)
    requires c in Children(dir) && !c.Unstatable? && c.name !in EXCLUDED_NAMES
    requires cfg.outputPath.Some? ==> path + [c.name] != cfg.outputPath.value
    ensures exists i | 0 <= i < |Entries(dir, path, cfg)| :: Entries(dir, path, cfg)[i] == EntryFor(c, path).value
  {
    ListChildrenComplete(Children(dir), path, c);
    var e := EntryFor(c, path).value;
    EntriesExact(dir, path, cfg, e);
    var es := Entries(dir, path, cfg);
    var i :| 0 <= i < |es| && es[i] == e;
  }

  /**
   * Entries that tie under the comparator are visited in the order the
   * directory listed them, less the output file.
   */
  lemma EntriesStable(dir: Node, path: Path, cfg: WalkConfig, x: DirEntryInfo)
    ensures Peers(Entries(dir, path, cfg), x) ==
            if cfg.outputPath.Some? then Retain(Peers(Listing(dir, path), x), cfg.outputPath.value)
            else Peers(Listing(dir, path), x)
  {
    var listed := Listing(dir, path);
    var kept := if cfg.outputPath.Some? then Retain(listed, cfg.outputPath.value) else listed;
    SortStable(kept, x);
    if cfg.outputPath.Some? {
      RetainPeers(listed, cfg.outputPath.value, x);
    }
  }

  /**
   * The loop visits directories before everything else (links to directories
   * included), and within each group by ascending lower-cased name.
   */
  lemma EntriesOrdered(dir: Node, path: Path, cfg: WalkConfig, i: int, j: int)
    requires 0 <= i < j < |Entries(dir, path, cfg)|
    ensures var es := Entries(dir, path, cfg);
            && (es[j].fileType.IsDir() ==> es[i].fileType.IsDir())
            && (es[i].fileType.IsDir() == es[j].fileType.IsDir() ==>
                  LexLe(Lower(es[i].fileName), Lower(es[j].fileName)))
  {
    var listed := Listing(dir, path);
    var kept := if cfg.outputPath.Some? then Retain(listed, cfg.outputPath.value) else listed;
    SortEntriesSorted(kept);
    SortedOrder(Entries(dir, path, cfg), i, j);
  }

  /**
   * A line written by `walk_dir(dir at path, depth)` or below it: written
   * no shallower than `depth` and shallower than the depth limit; an entry
   * line names no excluded entry, never the output file, and lies below `path`.
   */
  ghost predicate Bounded(l: Line, path: Path, cfg: WalkConfig, depth: nat) {
    && depth <= l.depth
    && (cfg.maxDepth.Some? ==> l.depth < cfg.maxDepth.value)
    && (l.TreeLine? ==>
          && l.entry.fileName !in EXCLUDED_NAMES
          && (cfg.outputPath.Some? ==> l.entry.path != cfg.outputPath.value)
          && path < l.entry.path)
  }

  lemma PrefixTrans(a: Path, b: Path, c: Path)
    requires a < b && b < c
    ensures a < c
  {
    assert c[..|b|][..|a|] == c[..|a|];
  }

  /**
   * Exclusion and the depth limit hold at every depth: no line below the
   * depth limit, no excluded name and never the output file.
   */
  lemma {:induction false} RenderDirBounded(dir: Node, path: Path, cfg: WalkConfig, prefix: string, depth: nat, isRoot: bool)
    ensures forall l | l in RenderDir(dir, path, cfg, prefix, depth, isRoot) :: Bounded(l, path, cfg, depth)
    decreases dir, 1
  {
    if !Pruned(cfg.maxDepth, depth) {
      EntriesPlaced(dir, path, cfg);
      RenderEntriesBounded(dir, path, cfg, Entries(dir, path, cfg), 0, prefix, depth, isRoot);
    }
  }

  lemma {:induction false} RenderEntriesBounded(dir: Node, path: Path, cfg: WalkConfig, es: seq<DirEntryInfo>, from: nat,
                                                prefix: string, depth: nat, isRoot: bool)
    requires !Pruned(cfg.maxDepth, depth)
    requires from <= |es| && forall e | e in es :: e.node in Children(dir) && Placed(e, dir, path, cfg)
    ensures forall l | l in RenderEntries(dir, es, from, cfg, prefix, depth, isRoot) :: Bounded(l, path, cfg, depth)
    decreases dir, 0, |es| - from + 2
  {
    if from < |es| {
      RenderEntryBounded(dir, path, cfg, es[from], from == |es| - 1, prefix, depth, isRoot);
      RenderEntriesBounded(dir, path, cfg, es, from + 1, prefix, depth, isRoot);
    }
  }

  lemma {:induction false} RenderEntryBounded(dir: Node, path: Path, cfg: WalkConfig, e: DirEntryInfo, isLast: bool,
                                              prefix: string, depth: nat, isRoot: bool)
    requires !Pruned(cfg.maxDepth, depth)
    requires Placed(e, dir, path, cfg)
    ensures forall l | l in RenderEntry(dir, e, isLast, cfg, prefix, depth, isRoot) :: Bounded(l, path, cfg, depth)
    decreases dir, 0, 1
  {
    var head := HeadLine(e, isLast, cfg, prefix, depth, isRoot);
    var content := ContentOf(e, cfg, prefix, depth);
    var sub := SubtreeOf(dir, e, isLast, cfg, prefix, depth, isRoot);
    assert Bounded(head, path, cfg, depth);
    assert forall l | l in content :: l.ContentLine? && l.depth == depth;
    SubtreeBounded(dir, path, cfg, e, isLast, prefix, depth, isRoot);
  }

  lemma {:induction false} SubtreeBounded(dir: Node, path: Path, cfg: WalkConfig, e: DirEntryInfo, isLast: bool,
                                          prefix: string, depth: nat, isRoot: bool)
    requires Placed(e, dir, path, cfg)
    ensures forall l | l in SubtreeOf(dir, e, isLast, cfg, prefix, depth, isRoot) :: Bounded(l, path, cfg, depth)
    decreases dir, 0, 0
  {
    if Descends(e) {
      var childPrefix := ChildPrefix(prefix, isLast, isRoot, GlyphsFor(cfg.ascii));
      var sub := RenderDir(e.node, e.path, cfg, childPrefix, depth + 1, false);
      RenderDirBounded(e.node, e.path, cfg, childPrefix, depth + 1, false);
      forall l | l in sub
        ensures Bounded(l, path, cfg, depth)
      {
        assert Bounded(l, e.path, cfg, depth + 1);
        if l.TreeLine? {
          PrefixTrans(path, e.path, l.entry.path);
        }
      }
    }
  }

  /** `p` is a run of four-character `pipe`/`space` blocks. */
  predicate IsBlocks(p: string, g: Glyphs)
    decreases |p|
  {
    p == [] || (|p| >= 4 && (p[|p| - 4..] == g.pipe || p[|p| - 4..] == g.space) && IsBlocks(p[..|p| - 4], g))
  }

  /** The prefix `walk_dir` is called with at `depth`: blocks, four characters per level, empty at the root. */
  ghost predicate PrefixOk(prefix: string, depth: nat, isRoot: bool, g: Glyphs) {
    IsBlocks(prefix, g) && |prefix| == 4 * depth && (isRoot ==> prefix == "")
  }

  /**
   * A child directory is drawn with its parent's prefix plus a blank block
   * when the parent entry is the last of its level, a pipe block otherwise;
   * so the prefix stays a run of blocks, four characters per level.
   */
  lemma ChildPrefixExtends(prefix: string, depth: nat, isLast: bool, isRoot: bool, ascii: bool)
    requires PrefixOk(prefix, depth, isRoot, GlyphsFor(ascii))
    ensures var g := GlyphsFor(ascii);
            var c := ChildPrefix(prefix, isLast, isRoot, g);
            c == prefix + (if isLast then g.space else g.pipe) && PrefixOk(c, depth + 1, false, g)
  {
    var g := GlyphsFor(ascii);
    var block := if isLast then g.space else g.pipe;
    var c := prefix + block;
    assert c[|c| - 4..] == block;
    assert c[..|c| - 4] == prefix;
  }

  /**
   * The shape of a line below a call with `prefix`: an entry line's lead is
   * a run of blocks, four characters per level, extending `prefix`; a content
   * line is indented by its file's prefix plus four spaces.
   */
  ghost predicate Shaped(l: Line, prefix: string, g: Glyphs) {
    && (l.TreeLine? ==> prefix <= l.lead && IsBlocks(l.lead, g) && |l.lead| == 4 * l.depth)
    && (l.ContentLine? ==>
          && prefix <= l.indent && |l.indent| == 4 * l.depth + 4
          && IsBlocks(l.indent[..4 * l.depth], g) && l.indent[4 * l.depth..] == CONTENT_INDENT)
  }

  /** Every line of the walk is drawn with a prefix of blocks matching its depth. */
  lemma {:induction false} RenderDirShaped(dir: Node, path: Path, cfg: WalkConfig, prefix: string, depth: nat, isRoot: bool)
    requires PrefixOk(prefix, depth, isRoot, GlyphsFor(cfg.ascii))
    ensures forall l | l in RenderDir(dir, path, cfg, prefix, depth, isRoot) :: Shaped(l, prefix, GlyphsFor(cfg.ascii))
    decreases dir, 1
  {
    if !Pruned(cfg.maxDepth, depth) {
      RenderEntriesShaped(dir, Entries(dir, path, cfg), 0, cfg, prefix, depth, isRoot);
    }
  }

  lemma {:induction false} RenderEntriesShaped(dir: Node, es: seq<DirEntryInfo>, from: nat, cfg: WalkConfig,
                                               prefix: string, depth: nat, isRoot: bool)
    requires PrefixOk(prefix, depth, isRoot, GlyphsFor(cfg.ascii))
    requires from <= |es| && forall e | e in es :: e.node in Children(dir)
    ensures forall l | l in RenderEntries(dir, es, from, cfg, prefix, depth, isRoot) :: Shaped(l, prefix, GlyphsFor(cfg.ascii))
    decreases dir, 0, |es| - from + 2
  {
    if from < |es| {
      RenderEntryShaped(dir, es[from], from == |es| - 1, cfg, prefix, depth, isRoot);
      RenderEntriesShaped(dir, es, from + 1, cfg, prefix, depth, isRoot);
    }
  }

  lemma {:induction false} RenderEntryShaped(dir: Node, e: DirEntryInfo, isLast: bool, cfg: WalkConfig,
                                             prefix: string, depth: nat, isRoot: bool)
    requires PrefixOk(prefix, depth, isRoot, GlyphsFor(cfg.ascii))
    requires e.node in Children(dir)
    ensures forall l | l in RenderEntry(dir, e, isLast, cfg, prefix, depth, isRoot) :: Shaped(l, prefix, GlyphsFor(cfg.ascii))
    decreases dir, 0, 1
  {
    var g := GlyphsFor(cfg.ascii);
    assert Shaped(HeadLine(e, isLast, cfg, prefix, depth, isRoot), prefix, g);
    ContentShaped(e, cfg, prefix, depth, isRoot);
    SubtreeShaped(dir, e, isLast, cfg, prefix, depth, isRoot);
  }

  lemma ContentShaped(e: DirEntryInfo, cfg: WalkConfig, prefix: string, depth: nat, isRoot: bool)
    requires PrefixOk(prefix, depth, isRoot, GlyphsFor(cfg.ascii))
    ensures forall l | l in ContentOf(e, cfg, prefix, depth) :: Shaped(l, prefix, GlyphsFor(cfg.ascii))
  {
    forall l | l in ContentOf(e, cfg, prefix, depth)
      ensures Shaped(l, prefix, GlyphsFor(cfg.ascii))
    {
      assert l.indent == prefix + CONTENT_INDENT && l.depth == depth;
      assert l.indent[..4 * depth] == prefix;
    }
  }

  lemma {:induction false} SubtreeShaped(dir: Node, e: DirEntryInfo, isLast: bool, cfg: WalkConfig,
                                         prefix: string, depth: nat, isRoot: bool)
    requires PrefixOk(prefix, depth, isRoot, GlyphsFor(cfg.ascii))
    requires e.node in Children(dir)
    ensures forall l | l in SubtreeOf(dir, e, isLast, cfg, prefix, depth, isRoot) :: Shaped(l, prefix, GlyphsFor(cfg.ascii))
    decreases dir, 0, 0
  {
    if Descends(e) {
      var g := GlyphsFor(cfg.ascii);
      var childPrefix := ChildPrefix(prefix, isLast, isRoot, g);
      ChildPrefixExtends(prefix, depth, isLast, isRoot, cfg.ascii);
      var sub := RenderDir(e.node, e.path, cfg, childPrefix, depth + 1, false);
      assert SubtreeOf(dir, e, isLast, cfg, prefix, depth, isRoot) == sub;
      RenderDirShaped(e.node, e.path, cfg, childPrefix, depth + 1, false);
      ShapedWeaken(sub, prefix, childPrefix, g);
    }
  }

  /** Lines drawn below a longer prefix are drawn below every prefix of it. */
  lemma ShapedWeaken(ls: seq<Line>, p: string, q: string, g: Glyphs)
    requires p <= q && forall l | l in ls :: Shaped(l, q, g)
    ensures forall l | l in ls :: Shaped(l, p, g)
  {
  }

  /** The entry lines of `ls` written at depth `d`, in order. */
  function TreeLinesAt(ls: seq<Line>, d: nat): seq<Line> {
    if ls == [] then []
    else (if ls[0].TreeLine? && ls[0].depth == d then [ls[0]] else []) + TreeLinesAt(ls[1..], d)
  }

  lemma {:induction false} TreeLinesAtAppend(a: seq<Line>, b: seq<Line>, d: nat)
    ensures TreeLinesAt(a + b, d) == TreeLinesAt(a, d) + TreeLinesAt(b, d)
  {
    if a == [] {
      assert a + b == b;
    } else {
      assert (a + b)[0] == a[0];
      assert (a + b)[1..] == a[1..] + b;
      TreeLinesAtAppend(a[1..], b, d);
    }
  }

  lemma {:induction false} TreeLinesAtNone(ls: seq<Line>, d: nat)
    requires forall l | l in ls && l.TreeLine? :: l.depth != d
    ensures TreeLinesAt(ls, d) == []
  {
    if ls != [] {
      TreeLinesAtNone(ls[1..], d);
    }
  }

  /** Of one iteration's lines, only the entry's own line is at the iteration's depth. */
  lemma EntryAtLevel(dir: Node, e: DirEntryInfo, isLast: bool, cfg: WalkConfig,
                     prefix: string, depth: nat, isRoot: bool)
    requires e.node in Children(dir)
    ensures TreeLinesAt(RenderEntry(dir, e, isLast, cfg, prefix, depth, isRoot), depth)
            == [HeadLine(e, isLast, cfg, prefix, depth, isRoot)]
  {
    var head := HeadLine(e, isLast, cfg, prefix, depth, isRoot);
    var content := ContentOf(e, cfg, prefix, depth);
    var sub := SubtreeOf(dir, e, isLast, cfg, prefix, depth, isRoot);
    SubtreeDeeper(dir, e, isLast, cfg, prefix, depth, isRoot);
    assert forall l | l in content :: l.ContentLine?;
    TreeLinesAtNone(content, depth);
    TreeLinesAtNone(sub, depth);
    TreeLinesAtAppend([head] + content, sub, depth);
    TreeLinesAtAppend([head], content, depth);
    assert TreeLinesAt([head], depth) == [head];
  }

  lemma SubtreeDeeper(dir: Node, e: DirEntryInfo, isLast: bool, cfg: WalkConfig,
                      prefix: string, depth: nat, isRoot: bool)
    requires e.node in Children(dir)
    ensures forall l | l in SubtreeOf(dir, e, isLast, cfg, prefix, depth, isRoot) :: l.depth > depth
  {
    if Descends(e) {
      RenderDirBounded(e.node, e.path, cfg, ChildPrefix(prefix, isLast, isRoot, GlyphsFor(cfg.ascii)), depth + 1, false);
    }
  }

  lemma {:induction false} EntriesAtLevel(dir: Node, es: seq<DirEntryInfo>, from: nat, cfg: WalkConfig,
                                          prefix: string, depth: nat, isRoot: bool)
    requires from <= |es| && forall e | e in es :: e.node in Children(dir)
    ensures var h := TreeLinesAt(RenderEntries(dir, es, from, cfg, prefix, depth, isRoot), depth);
            && |h| == |es| - from
            && forall i | from <= i < |es| :: h[i - from] == HeadLine(es[i], i == |es| - 1, cfg, prefix, depth, isRoot)
    decreases |es| - from
  {
    if from < |es| {
      var block := RenderEntry(dir, es[from], from == |es| - 1, cfg, prefix, depth, isRoot);
      var rest := RenderEntries(dir, es, from + 1, cfg, prefix, depth, isRoot);
      var head := HeadLine(es[from], from == |es| - 1, cfg, prefix, depth, isRoot);
      EntryAtLevel(dir, es[from], from == |es| - 1, cfg, prefix, depth, isRoot);
      TreeLinesAtAppend(block, rest, depth);
      EntriesAtLevel(dir, es, from + 1, cfg, prefix, depth, isRoot);
      var hr := TreeLinesAt(rest, depth);
      var h := TreeLinesAt(RenderEntries(dir, es, from, cfg, prefix, depth, isRoot), depth);
      assert h == [head] + hr;
      forall i | from < i < |es|
        ensures h[i - from] == HeadLine(es[i], i == |es| - 1, cfg, prefix, depth, isRoot)
      {
        assert h[i - from] == hr[i - (from + 1)];
      }
    }
  }

  /** A call at the depth limit, or on a directory with nothing to list, writes nothing. */
  lemma NothingToList(dir: Node, path: Path, cfg: WalkConfig, prefix: string, depth: nat, isRoot: bool)
    requires Pruned(cfg.maxDepth, depth) || Entries(dir, path, cfg) == []
    ensures RenderDir(dir, path, cfg, prefix, depth, isRoot) == []
  {
  }

  lemma LevelHeads(dir: Node, path: Path, cfg: WalkConfig, prefix: string, depth: nat, isRoot: bool)
    requires !Pruned(cfg.maxDepth, depth)
    ensures var es := Entries(dir, path, cfg);
            var h := TreeLinesAt(RenderDir(dir, path, cfg, prefix, depth, isRoot), depth);
            && |h| == |es|
            && forall i | 0 <= i < |h| :: h[i] == HeadLine(es[i], i == |es| - 1, cfg, prefix, depth, isRoot)
  {
    var es := Entries(dir, path, cfg);
    assert RenderDir(dir, path, cfg, prefix, depth, isRoot) == RenderEntries(dir, es, 0, cfg, prefix, depth, isRoot);
    EntriesAtLevel(dir, es, 0, cfg, prefix, depth, isRoot);
    var h := TreeLinesAt(RenderDir(dir, path, cfg, prefix, depth, isRoot), depth);
    forall i | 0 <= i < |h|
      ensures h[i] == HeadLine(es[i], i == |es| - 1, cfg, prefix, depth, isRoot)
    {
      assert h[i - 0] == h[i];
    }
  }

  /**
   * The entry lines `walk_dir` writes at its own depth are exactly its sorted
   * entries, one line each, in order: the last one with the elbow glyph,
   * every other with the tee, each with its display name after the prefix
   * (no prefix at the root level).
   */
  lemma LevelLines(dir: Node, path: Path, cfg: WalkConfig, prefix: string, depth: nat, isRoot: bool)
    requires !Pruned(cfg.maxDepth, depth)
    ensures var es := Entries(dir, path, cfg);
            var g := GlyphsFor(cfg.ascii);
            var h := TreeLinesAt(RenderDir(dir, path, cfg, prefix, depth, isRoot), depth);
            && |h| == |es|
            && forall i | 0 <= i < |h| ::
                 && h[i].TreeLine?
                 && h[i].entry == es[i]
                 && h[i].glyph == (if i == |es| - 1 then g.elbow else g.tee)
                 && h[i].display == DisplayName(es[i])
                 && h[i].lead == (if isRoot then "" else prefix)
  {
    LevelHeads(dir, path, cfg, prefix, depth, isRoot);
  }

  /**
   * A directory entry is shown with a trailing `/`, gets no content and is
   * followed by the listing of the directory one level deeper, drawn with
   * the child prefix.
   */
  lemma DirEntryRendering(dir: Node, path: Path, cfg: WalkConfig, e: DirEntryInfo, isLast: bool,
                          prefix: string, depth: nat, isRoot: bool)
    requires e in Listing(dir, path) && e.node.Dir?
    ensures DisplayName(e) == e.fileName + "/"
    ensures e.node in Children(dir)
    ensures RenderEntry(dir, e, isLast, cfg, prefix, depth, isRoot)
            == [HeadLine(e, isLast, cfg, prefix, depth, isRoot)]
               + RenderDir(e.node, e.path, cfg, ChildPrefix(prefix, isLast, isRoot, GlyphsFor(cfg.ascii)), depth + 1, false)
  {
    assert e.node in Children(dir) && Descends(e) && !e.fileType.IsFile() && !e.fileType.IsSymlink() by {
      ListedEntry(dir, path, e);
    }
    var head := HeadLine(e, isLast, cfg, prefix, depth, isRoot);
    var sub := RenderDir(e.node, e.path, cfg, ChildPrefix(prefix, isLast, isRoot, GlyphsFor(cfg.ascii)), depth + 1, false);
    assert RenderEntry(dir, e, isLast, cfg, prefix, depth, isRoot) == [head] + sub by {
      assert ContentOf(e, cfg, prefix, depth) == [];
      assert SubtreeOf(dir, e, isLast, cfg, prefix, depth, isRoot) == sub;
      assert [head] + [] + sub == [head] + sub;
    }
    assert DisplayName(e) == e.fileName + "/";
  }

  /**
   * The recursion guard descends into a listed entry exactly when its node
   * is a directory: never into a link, whatever the link points at, and
   * never into a file or special node.
   */
  lemma DescendsOnlyIntoDirectories(dir: Node, path: Path, e: DirEntryInfo)
    requires e in Listing(dir, path)
    ensures Descends(e) <==> e.node.Dir?
  {
    ListedEntry(dir, path, e);
  }

  /**
   * A symbolic link, even one that points at a directory, is shown as
   * `name -> target` (or `name -> <unreadable>`) with no `/`, no content
   * and nothing below it.
   */
  lemma LinkEntryRendering(dir: Node, path: Path, cfg: WalkConfig, e: DirEntryInfo, isLast: bool,
                           prefix: string, depth: nat, isRoot: bool)
    requires e in Listing(dir, path) && e.node.Symlink?
    ensures DisplayName(e) == e.fileName + " -> " + e.node.target.GetOr("<unreadable>")
    ensures e.node in Children(dir) && !Descends(e)
    ensures RenderEntry(dir, e, isLast, cfg, prefix, depth, isRoot) == [HeadLine(e, isLast, cfg, prefix, depth, isRoot)]
  {
    assert e.node in Children(dir) && !e.fileType.IsDir() && !e.fileType.IsFile() && e.fileType.IsSymlink() by {
      ListedEntry(dir, path, e);
    }
    assert ReadLink(e.node) == e.node.target;
    match e.node.target {
      case Some(t) => assert DisplayName(e) == e.fileName + " -> " + t;
      case None =>
        assert " -> " + "<unreadable>" == " -> <unreadable>";
        assert DisplayName(e) == e.fileName + " -> " + "<unreadable>";
    }
    assert ContentOf(e, cfg, prefix, depth) == [];
    assert SubtreeOf(dir, e, isLast, cfg, prefix, depth, isRoot) == [];
  }

  /** Any other kind of entry (socket, device, pipe) is shown by its bare name and nothing else. */
  lemma SpecialEntryRendering(dir: Node, path: Path, cfg: WalkConfig, e: DirEntryInfo, isLast: bool,
                              prefix: string, depth: nat, isRoot: bool)
    requires e in Listing(dir, path) && e.node.Special?
    ensures DisplayName(e) == e.fileName
    ensures e.node in Children(dir)
    ensures RenderEntry(dir, e, isLast, cfg, prefix, depth, isRoot) == [HeadLine(e, isLast, cfg, prefix, depth, isRoot)]
  {
    assert e.node in Children(dir) && !Descends(e) && !e.fileType.IsFile() && !e.fileType.IsSymlink() by {
      ListedEntry(dir, path, e);
    }
    assert ContentOf(e, cfg, prefix, depth) == [];
    assert SubtreeOf(dir, e, isLast, cfg, prefix, depth, isRoot) == [];
  }

  /** A regular file is shown by its bare name, followed by its content lines only when content is shown. */
  lemma FileEntryRendering(dir: Node, path: Path, cfg: WalkConfig, e: DirEntryInfo, isLast: bool,
                           prefix: string, depth: nat, isRoot: bool)
    requires e in Listing(dir, path) && e.node.File?
    ensures DisplayName(e) == e.fileName
    ensures e.node in Children(dir)
    ensures RenderEntry(dir, e, isLast, cfg, prefix, depth, isRoot)
            == [HeadLine(e, isLast, cfg, prefix, depth, isRoot)]
               + (if cfg.showContent then FileLines(e, prefix, depth) else [])
  {
    assert e.node in Children(dir) && !Descends(e) && e.fileType.IsFile() && !e.fileType.IsSymlink() by {
      ListedEntry(dir, path, e);
    }
    assert SubtreeOf(dir, e, isLast, cfg, prefix, depth, isRoot) == [];
  }

  /**
   * The text inlined below a file, indented by the file's prefix plus four
   * spaces: the start marker, every line of the file, the end marker; or,
   * when the file cannot be read, the single diagnostic line.
   */
  lemma FileLinesText(e: DirEntryInfo, prefix: string, depth: nat)
    ensures var t := Texts(FileLines(e, prefix, depth));
            var indent := prefix + CONTENT_INDENT;
            match ReadToString(e.node)
            case Success(lines) =>
              && |t| == |lines| + 2
              && t[0] == indent + CONTENT_START
              && (forall k | 0 <= k < |lines| :: t[k + 1] == indent + lines[k])
              && t[|lines| + 1] == indent + CONTENT_END
            case Failure(err) =>
              t == [indent + "[Could not read file: " + err + "]"]
  {
    var indent := prefix + CONTENT_INDENT;
    var ls := FileLines(e, prefix, depth);
    TextsAt(ls);
    match ReadToString(e.node)
    case Success(lines) =>
      var body := seq(|lines|, k requires 0 <= k < |lines| => ContentLine(depth, indent, lines[k]));
      assert ls == [ContentLine(depth, indent, CONTENT_START)] + body + [ContentLine(depth, indent, CONTENT_END)];
      forall k | 0 <= k < |lines|
        ensures Texts(ls)[k + 1] == indent + lines[k]
      {
        assert ls[k + 1] == body[k];
      }
      assert ls[|lines| + 1] == ContentLine(depth, indent, CONTENT_END);
    case Failure(err) =>
      assert ls == [ContentLine(depth, indent, "[Could not read file: " + err + "]")];
      assert Texts(ls)[0] == indent + "[Could not read file: " + err + "]";
      assert Texts(ls) == [indent + "[Could not read file: " + err + "]"];
  }
}
