# folderwalk, modelled in Dafny

folderwalk writes a directory tree as text. It writes the start directory's name first. Then, depth-first, it writes one line per entry:

- a branch glyph (`├── `/`└── `, or `|-- `/`` `-- `` with `--ascii`);
- the entry name, with `/` after a directory and `-> target` after a symbolic link;
- below each level, a prefix of four-character blocks (`│   ` or four spaces).

With `--content`, the text of every regular file is inlined between start and end markers. `--max-depth N` limits the depth. Entries named `node_modules`, `.git` or `target`, whatever their type, are never listed. Unless `--stdout` is given, the tree goes to `files.txt` in the scanned directory, and that file is kept out of its own listing.

This project models the walker and everything it depends on:

- **`FsTree`**: the file system, as an in-memory tree of `File`, `Dir`, `Symlink`, `Special` and `Unstatable` nodes. Every file-system call the program makes (`read_dir`, `symlink_metadata`, `metadata`, `read_link`, `read_to_string`) is a function of the node at that path.
- **`Lister`**: `read_dir_entries` as a loop (`ReadDirEntries`), proved equal to the specification function `Listing`. It also holds the self-exclusion `retain`.
- **`Ordering`**: the comparator handed to `sort_by`, and the stable sort. The sort is proved to give a permutation that is sorted and stable.
- **`Render`**: what `walk_dir` writes, as a function (`RenderDir`). It returns structured lines (the depth, lead, glyph, display name and entry of each entry line; the indent and text of each content line), and `Texts` gives the exact strings.
- **`RenderFacts`**: the properties of that rendering at every depth:
  - exclusions and the depth limit;
  - prefix arithmetic;
  - one line per entry, with the elbow glyph on the last;
  - what each kind of entry produces.
- **`Walker`**: `walk_dir` as the program runs it, writing to a `LineSink` object line by line. It is proved to write exactly `Texts(RenderDir(..))`.
- **`Cli`**: `parse_args` as the loop it is (`ParseArgs`), proved equal to the left-to-right scan `Parse`. `Cli` also holds the properties of the scan.
- **`Runner`**: `run` and `display_root_name`: the root line, then the walk from the start directory.

A link to a directory might be expected to sort among the directories, but the code classifies an entry by its un-followed type, so a link is never a directory. Therefore a link to a directory:

- sorts with the files;
- is shown without `/`;
- is never descended into.

`Lister.ListedEntry` states this classification, and `RenderFacts.EntriesOrdered` and `RenderFacts.LinkEntryRendering` state its consequences. Once the un-followed type says "not a directory", the `!is_symlink_dir` test in front of the recursion never changes the outcome (`Lister.ListedEntry`, last clause).

## Model

| member | source | states |
|---|---|---|
| FsTree.ReadDir | src/main.rs:266-276 | Listing a node gives its children only for a readable directory; anything else is the error that `read_dir_entries` turns into an empty listing (`Lister.ReadDirEntries`). |
| FsTree.Children | src/main.rs:266-276 | The children the walker sees: those of a readable directory, none otherwise. |
| FsTree.SymlinkMetadata | src/main.rs:282-293 | The type without following a link: a link reports itself, an undescribable entry reports nothing. |
| FsTree.Metadata | src/main.rs:299-306 | The type after following a link: a link reports what its target is (nothing when dangling); any other node reports its own type. |
| FsTree.ReadLink | src/main.rs:198-201 | Reading a link gives its stored target or nothing; any other node gives nothing. |
| FsTree.ReadToString | src/main.rs:213-224 | Reading a file gives its lines or its error text; any other node gives an error. |
| Lister.KindOf | src/main.rs:293-303 | The type an entry is classified with is exactly the un-followed type of its node; for anything but a link, following changes nothing (`FsTree.Metadata`), so this is what the code picks either way. |
| Lister.EntryFor | src/main.rs:282-325 | A child gives an entry if and only if its un-followed metadata can be read and its name is not excluded. The entry carries the child's node and name, the path `dir/name` and the un-followed type, and is flagged as a link to a directory exactly when it is a link whose target is a directory. |
| Lister.ReadDirEntries | src/main.rs:265-337 | The loop over the directory's children returns exactly `Listing`. An unreadable directory lists as empty. A child whose un-followed metadata fails is skipped. An excluded name is skipped. Every other child gives one entry, in listing order. |
| Lister.Listing | src/main.rs:279-335 | Every listed entry is a visible child of the directory and is the entry that child describes. |
| Lister.ListChildren | src/main.rs:279-335 | No more entries than children; each entry comes from a child and is what `EntryFor` makes of that child. |
| Lister.ListedEntry | src/main.rs:282-325 | A listed entry carries its child's name and the path `dir/name`. Its name is not excluded. It is a directory, file or link exactly when the node is one, judged without following links. It is flagged as a link to a directory exactly when it is a link whose target is a directory, so a flagged entry is never a directory. |
| Lister.ListChildrenComplete | src/main.rs:279-325 | Every describable child whose name is not excluded is listed. |
| Lister.ListingExact | src/main.rs:279-325 | A child is listed if and only if its metadata can be read and its name is not `node_modules`, `.git` or `target`. |
| Lister.Retain | src/main.rs:165-167 | An entry is kept if and only if it was there and its path is not the output path. |
| Lister.RetainAppend | src/main.rs:165-167 | Filtering a concatenation filters each part in place, so the order of what is kept is the order it had. |
| Lister.RetainKeepsAll | src/main.rs:165-167 | When no entry has the output path, nothing is removed and the order is unchanged. |
| Lister.SelfExclusionOnlyAtRoot | src/main.rs:165-167 | The output file sits in the start directory, so below it self-exclusion removes nothing; a `files.txt` in a subdirectory is listed. |
| Lister.SelfExclusionAtRoot | src/main.rs:165-167 | In the start directory, an entry is dropped if and only if it is named `files.txt`, whatever its type. |
| Ordering.CmpStr | src/main.rs:176 | `str::cmp`; its lemmas below show it is the lexicographic order. |
| Ordering.Lower | src/main.rs:174-175 | Lower-casing keeps the length of the name. |
| Ordering.CmpStrEqual | src/main.rs:176 | String comparison says Equal if and only if the strings are equal. |
| Ordering.CmpStrFlip | src/main.rs:176 | Swapping the arguments reverses the string comparison. |
| Ordering.CmpStrTrans | src/main.rs:176 | "Not greater" is transitive for strings. |
| Ordering.CmpStrIsLexLe | src/main.rs:176 | The recursive comparison agrees in both directions with the non-recursive lexicographic order: either a prefix, or a smaller character at the first difference. |
| Ordering.CompareEntries | src/main.rs:169-180 | The comparator puts a directory before a non-directory and a non-directory after a directory; otherwise it compares the lower-cased names (`CompareFacts`, `SortedOrder`). |
| Ordering.CompareFacts | src/main.rs:169-180 | The comparator is antisymmetric. Two entries tie if and only if they have the same directory flag and the same lower-cased name. |
| Ordering.EqualTies | src/main.rs:169-180 | Two entries that tie with a third tie with each other. |
| Ordering.CompareTrans | src/main.rs:169-180 | The comparator's "not greater" is transitive, so it is a total preorder. |
| Ordering.Insert | src/main.rs:169 | Inserting adds exactly that one entry (a multiset equality). |
| Ordering.InsertSorted | src/main.rs:169 | Inserting into a sorted sequence keeps it sorted. |
| Ordering.SortEntries | src/main.rs:169 | The sort returns a permutation of its input. |
| Ordering.SortEntriesSorted | src/main.rs:169-180 | The sort's result is ordered by the comparator. |
| Ordering.SortedPairs | src/main.rs:169-180 | In a sorted sequence, no entry compares greater than any later one. |
| Ordering.SortedOrder | src/main.rs:169-180 | In a sorted sequence, every directory comes before every non-directory. Within each group, the lower-cased names ascend. |
| Ordering.InsertPeers | src/main.rs:169 | Inserting never passes an entry that ties with the inserted one. |
| Ordering.SortStable | src/main.rs:169 | The sort is stable: the entries tying with any given entry appear in the same relative order as in the sort's input. |
| Ordering.RetainPeers | src/main.rs:165-180 | Self-exclusion keeps order: the entries tying with a given one, after filtering, are those before filtering with the output file removed. |
| Render.GlyphsFor | src/main.rs:182-186 | The four glyphs of each style; `GlyphWidths` states their shape. |
| Render.GlyphWidths | src/main.rs:182-186 | In both styles every glyph and block is four characters wide, the tee differs from the elbow and the pipe block from the blank block. |
| Render.HeadLine | src/main.rs:189-210 | An entry's own line: the elbow on the last entry and the tee otherwise, the prefix as lead except at the root level, then the display name; `RenderFacts.LevelLines` states this for a whole level. |
| Render.Text | src/main.rs:206-222 | The string written for a line: lead, glyph and display name for an entry, indent and text for content; `Render.TextsAt` and `RenderFacts.FileLinesText` give the exact output. |
| Render.Texts | src/main.rs:206-222 | One string per line: an entry line is lead, glyph and display name; a content line is indent and text. |
| Render.Pruned | src/main.rs:158-162 | A call is pruned when a limit is set and the depth has reached it; `NothingToList` and `RenderDirBounded` state the consequences. |
| Render.Entries | src/main.rs:164-180 | The entries a level iterates over are listed children of that directory, and none is at the output path. |
| Render.DisplayName | src/main.rs:192-204 | The shown name starts with the entry's name, and equals it exactly when the entry is neither a directory nor a link. |
| Render.ChildPrefix | src/main.rs:228-240 | The prefix for a directory's children; `ChildPrefixExtends` states its shape. |
| Render.FileLines | src/main.rs:212-225 | Content is never empty (at least the diagnostic line), every line is a content line at the file's depth, indented by its prefix plus four spaces. `FileLinesText` gives the exact text. |
| Render.RenderDir | src/main.rs:147-256 | What one `walk_dir` call writes. Its properties are the `RenderFacts` lemmas (bounds, shape, levels) and `Walker.WalkDir`, which writes exactly its text. |
| Render.RenderEntries | src/main.rs:188-253 | The loop's iterations from an index on, the last flagged as last; see `RenderFacts.RenderEntriesBounded`, `RenderEntriesShaped` and `EntriesAtLevel`. |
| Render.RenderEntry | src/main.rs:188-252 | One iteration: head line, content, subtree; see the four `RenderFacts.*EntryRendering` lemmas. |
| Render.ContentOf | src/main.rs:212-225 | Content appears only for an entry whose un-followed type is a regular file, and only with `--content`; see `RenderFacts.FileEntryRendering`. |
| Render.SubtreeOf | src/main.rs:227-252 | The recursive call, made exactly when `Descends` holds, which for a listed entry means its node is a directory and never a link (`RenderFacts.DescendsOnlyIntoDirectories`); see also `RenderFacts.DirEntryRendering` and `SubtreeDeeper`. |
| Render.Descends | src/main.rs:227 | The recursion guard: the un-followed type is a directory and the entry is not flagged as a link to a directory; `RenderFacts.DescendsOnlyIntoDirectories` states what it decides. |
| RenderFacts.EntriesPlaced | src/main.rs:164-167 | Every iterated entry is a child, has no excluded name, is not the output file, and lies below the directory's path. |
| RenderFacts.EntriesExact | src/main.rs:164-167 | An entry is iterated if and only if it is listed and is not at the output path. |
| RenderFacts.ChildListed | src/main.rs:164-167 | A describable child, not excluded by name and not the output file, is among the iterated entries. |
| RenderFacts.EntriesOrdered | src/main.rs:169-180 | In the order of the loop, directories precede non-directories (links to directories included). Within each group, the lower-cased names ascend. |
| RenderFacts.EntriesStable | src/main.rs:164-180 | Entries that tie under the comparator are visited in the order the directory listed them, less the output file in file mode. |
| RenderFacts.RenderDirBounded | src/main.rs:158-167 | At every depth: no line at or past the depth limit, no excluded name, never the output file, and every entry lies below the directory walked. |
| RenderFacts.RenderEntriesBounded | src/main.rs:188-253 | The same bounds hold for the lines of each iteration of the loop. |
| RenderFacts.RenderEntryBounded | src/main.rs:188-252 | The same bounds hold for one entry's line, content and subtree. |
| RenderFacts.SubtreeBounded | src/main.rs:227-252 | The same bounds hold for the recursive call, one level deeper. |
| RenderFacts.ChildPrefixExtends | src/main.rs:228-240 | The child prefix is the parent prefix plus the blank block after the last sibling, or plus the pipe block otherwise. It stays a run of four-character blocks, 4 × depth long. |
| RenderFacts.RenderDirShaped | src/main.rs:206-251 | Every line below a call extends its prefix. An entry line's lead is a run of blocks 4 × depth long. A content line is indented by its file's prefix plus four spaces. |
| RenderFacts.RenderEntriesShaped | src/main.rs:188-253 | The same shape holds for each iteration of the loop. |
| RenderFacts.RenderEntryShaped | src/main.rs:206-252 | The same shape holds for one entry's lines. |
| RenderFacts.ContentShaped | src/main.rs:212-225 | Inlined content is indented by the file's prefix plus four spaces. |
| RenderFacts.SubtreeShaped | src/main.rs:227-252 | The same shape holds for the subtree, drawn with the child prefix. |
| RenderFacts.EntryAtLevel | src/main.rs:206-252 | An iteration writes exactly one entry line at its own depth, namely its head line. |
| RenderFacts.SubtreeDeeper | src/main.rs:241-251 | Every line of a subtree is deeper than its parent level. |
| RenderFacts.EntriesAtLevel | src/main.rs:188-253 | The entry lines of the loop's own depth are the head lines of its entries, in order, one each. |
| RenderFacts.NothingToList | src/main.rs:158-162 | A call at or past the depth limit writes nothing, and so does a directory with nothing to list. |
| RenderFacts.LevelHeads | src/main.rs:188-210 | A level's own-depth lines are exactly the head lines of its sorted entries, in order. |
| RenderFacts.LevelLines | src/main.rs:188-210 | One line per entry, in sorted order. The last has the elbow glyph and every other the tee. Each shows its display name after the prefix, with no prefix at the root level. |
| RenderFacts.DirEntryRendering | src/main.rs:192-252 | A directory is shown with a trailing `/`, gets no content, and is followed by its own listing one level deeper under the child prefix. |
| RenderFacts.DescendsOnlyIntoDirectories | src/main.rs:227 | For a listed entry, the recursion guard holds if and only if the node is a directory: a link, even to a directory, is never descended into. |
| RenderFacts.LinkEntryRendering | src/main.rs:192-252 | A link, even to a directory, is shown as `name -> target` (or `-> <unreadable>`) on one line. The guard rejects it, and it gets no content and no subtree. |
| RenderFacts.SpecialEntryRendering | src/main.rs:192-252 | Anything that is neither file, directory nor link is shown by name alone on one line. |
| RenderFacts.FileEntryRendering | src/main.rs:192-252 | A file is shown by name and followed by its content exactly when content is requested. |
| RenderFacts.FileLinesText | src/main.rs:212-225 | Inlined text is the start marker, every line of the file, and the end marker, each indented by prefix plus four spaces. For an unreadable file it is the single `[Could not read file: …]` line. |
| Walker.LineSink.WriteLine | src/main.rs:207 | Writing a line appends exactly that line to the output. |
| Walker.WriteContent | src/main.rs:212-225 | The content loop appends exactly `FileLines`. |
| Walker.WalkDir | src/main.rs:147-256 | One call appends exactly the lines of `RenderDir`: prune, list, self-exclude, sort, then one iteration per entry. It recurses exactly where the guard holds, which for a listed entry is a directory node and never a link (`RenderFacts.DescendsOnlyIntoDirectories`). It terminates because the tree is finite and each call descends to a child node. |
| Walker.WriteEntries | src/main.rs:188-253 | The loop appends each entry's lines in order, the last flagged as last. |
| Walker.WriteEntry | src/main.rs:189-252 | One iteration appends the entry line, then the file's content, then the subtree of a directory that is not a link. |
| Cli.Scan | src/main.rs:39-74 | The scan stops early only for help or with one of its four errors: a missing depth value, an invalid depth value, a second path, or `Unknown flag: ` followed by the flag. |
| Cli.Finish | src/main.rs:76-83 | The configuration after the last argument: the start directory defaults to the working directory, else `.`; see `Cli.NoArguments`. |
| Cli.Parse | src/main.rs:30-84 | `parse_args` as a function: the scan from the initial state, then `Finish`; see `ParseArgs` and the lemmas below. |
| Cli.ParseArgs | src/main.rs:30-84 | The argument loop returns exactly what the left-to-right scan decides. |
| Cli.ParseUsize | src/main.rs:45-47 | A parsed depth fits a 64-bit `usize`, and only a value starting with a digit or `+` parses. |
| Cli.DashNotNumber | src/main.rs:45-47 | A value beginning with `-` is never a valid depth. |
| Cli.NoArguments | src/main.rs:76-83 | With no arguments, the walk starts in the working directory (`.` if unknown), with no limit, Unicode glyphs, no content and file output. |
| Cli.ScanAppend | src/main.rs:39-74 | Arguments are read left to right: a consumed prefix leaves a state from which the rest is read. A prefix that stopped for any reason except a trailing `--max-depth` decides the result. |
| Cli.ScanKeeps | src/main.rs:48-72 | Switches once on stay on, the first path is kept, and the depth changes only at a `--max-depth`. |
| Cli.DashReadAsArgument | src/main.rs:41-47 | In a command line that parses, an argument beginning with `-` is never consumed as a depth value. |
| Cli.SwitchSticks | src/main.rs:50-58 | Switches are monotone: a successful parse of a line containing a switch has that switch on. |
| Cli.SwitchIdempotent | src/main.rs:50-58 | A switch given twice in a row parses the same as given once, errors included. |
| Cli.DashAfterTrailingMaxDepth | src/main.rs:41-47 | After `--max-depth`, a following flag is read as its value and rejected as an invalid depth. |
| Cli.LastMaxDepthWins | src/main.rs:41-49 | When `--max-depth` is given more than once, the last value is the one used. |
| Cli.UnknownFlagRejected | src/main.rs:63-65 | An unknown argument beginning with `-` stops parsing with `Unknown flag: <arg>`. |
| Cli.HelpStops | src/main.rs:59-62 | `--help` or `-h` ends parsing with the help outcome, whatever follows. |
| Cli.SecondPathRejected | src/main.rs:66-72 | A second path is the error `Only one path argument is allowed`. |
| Cli.MissingDepthValue | src/main.rs:41-44 | A trailing `--max-depth` is the error `--max-depth requires a value`. |
| Cli.InvalidDepthValue | src/main.rs:45-47 | A value that is not a `usize` is the error `Invalid --max-depth value`. |
| Cli.ScanTrailingMaxDepth | src/main.rs:41-44 | A prefix that stopped for a missing value ends in `--max-depth`, and the next argument becomes its value. |
| Cli.ParseUsizeNatToString | src/main.rs:45-47 | Every value a `usize` holds, written in decimal, parses back to itself. |
| Cli.ParseUnparse | src/main.rs:30-84 | Every configuration, with a path not beginning with `-` and a depth that fits a `usize`, is reached by some command line. |
| Runner.FileName | src/main.rs:142 | The last component, when there is one, is a plain name: not empty, not `.` or `..`, without `/`. |
| Runner.PiecesAreNames | src/main.rs:142 | Every component of a path is a non-empty piece without `/` other than `.`. |
| Runner.DisplayRootName | src/main.rs:141-145 | The root name is never absent: the path's last component, or the path as given when it has none. |
| Runner.RootLabel | src/main.rs:119-123 | The root line: the start path's name, else the path as given; `RootLabelOfJoin` and `RootLabelWithoutName` state which. |
| Runner.RootLabelOfJoin | src/main.rs:141-145 | For `dir/name`, the root line is `name`. |
| Runner.FileNameTrailingSlash | src/main.rs:142 | A trailing `/` does not change the last component. |
| Runner.RootLabelWithoutName | src/main.rs:141-145 | The empty path, `/`, `.`, `..` and any path ending in `/..` have no last component, and a path without one is shown as given. |
| Runner.WalkConfigOf | src/main.rs:125-134 | The walk excludes `files.txt` in the start directory only in file mode, and passes the depth limit, glyph style and content switch unchanged. |
| Runner.TreeLines | src/main.rs:125-135 | The lines of the walk from the start directory at depth 0, with an empty prefix, at the root level. |
| Runner.TreeOutput | src/main.rs:119-135 | The output starts with the root line. |
| Runner.Run | src/main.rs:98-139 | Requires the start node not to be a link node. A start path that cannot be stat'ed fails, and so does a non-directory (`Path is not a directory: <path>`); neither writes anything. Otherwise the writer receives the root line and then the walk from depth 0 with an empty prefix, excluding `files.txt` only in file mode. |
| Runner.WriteTree | src/main.rs:119-135 | The success path of `run`: the sink receives exactly the root line and then the walk's lines. |
| Runner.MaxDepthZero | src/main.rs:158-162 | `--max-depth 0` writes only the root line. |
| Runner.MaxDepthOne | src/main.rs:158-162 | `--max-depth 1` writes the start directory's own entries only: every line is at depth 0, entry lines carry no prefix, and content is indented by four spaces. |
| Runner.TreeExclusions | src/main.rs:147-167 | Over the whole tree: no line past the depth limit, no excluded name, and in file mode never `files.txt` itself. |
| Runner.StdoutListsOutputFile | src/main.rs:125-135 | With `--stdout`, nothing is self-excluded: a describable `files.txt` in the start directory appears in the tree. |

## Left out

- The file system is an in-memory tree. The program's calls are functions of the node at a path, and OS error texts are not modelled. A failed stat of the start path is the abstract `StatFailed`, and a file that cannot be read gives the error text stored in its node.
- The order in which `read_dir` yields children is the order of `children`, whatever the platform gives.
- Runner.Run: requires the start node not to be a link node. In the model a link node only names its target, so a symbolic link given as the start path (which `fs::metadata` at src/main.rs:99 and `fs::read_dir` at src/main.rs:266 follow) is modelled by passing the directory it leads to. The model's tree therefore has no link cycles, and a link node is a leaf; that the walk never descends into a link is what `RenderFacts.DescendsOnlyIntoDirectories` states about the guard.
- Diagnostics (`eprintln!` warnings for unreadable directories and entries), the usage text, `process::exit` and the exit codes are not modelled. `--help` is the outcome `Help`.
- `File::create`, buffering, `flush`, and write errors (the `?` after each `writeln!`) are not modelled. The sink never fails. The tree is taken as it stands when the walk runs, after `files.txt` exists.
- Choosing between standard output and the file is not modelled: both receive the same lines (`Runner.Run`); only the self-exclusion differs.
- `env::current_dir()` is a parameter (`None` when it fails).
- `to_string_lossy` is the identity: names and paths are strings already.
- Ordering.Lower: lower-cases ASCII letters only, not Unicode's full `to_lowercase`.
- `str::lines()` is taken as already done: a file's content is its sequence of lines, so line-ending details (`\n` against `\r\n`, a final newline) are not modelled.
- A `usize` is 64 bits wide (`Cli.USIZE_MAX`). The depth in `walk_dir` is unbounded, since it never approaches that width.
- `Path::file_name` is modelled for Unix paths written with `/`.
- `retain` and `sort_by` are functions on values, not updates of a vector in place. `sort_by` is modelled by a stable insertion sort. The comparator is a total preorder (`Ordering.CompareTrans`, `Ordering.CompareFacts`), and a sorted permutation in which tied entries keep their listing order is unique. So any stable sort with this comparator gives the same sequence. That uniqueness is not itself proved.
