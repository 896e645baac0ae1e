/**
 * The order `walk_dir` sorts a listing into: directories first, then names
 * compared after lower-casing, by a stable sort.
 */
module Ordering {
  import opened FsTree
  import opened Lister

  /** `std::cmp::Ordering`. */
  datatype Ord = Less | Equal | Greater {
    function Reverse(): Ord {
      match this
      case Less => Greater
      case Equal => Equal
      case Greater => Less
    }
  }

  /** `bool::cmp`: false before true. */
  function CmpBool(a: bool, b: bool): Ord {
    if a == b then Equal else if !a then Less else Greater
  }

  /** `str::cmp`: lexicographic on characters, a proper prefix first. */
  function CmpStr(a: string, b: string): Ord
    decreases |a|
  {
    if a == [] then (if b == [] then Equal else Less)
    else if b == [] then Greater
    else if a[0] < b[0] then Less
    else if b[0] < a[0] then Greater
    else CmpStr(a[1..], b[1..])
  }

  /** Lower-casing of one character (ASCII letters only). */
  function LowerChar(c: char): char {
    if 'A' <= c <= 'Z' then (c as int + 32) as char else c
  }

  function Lower(s: string): (r: string)
    ensures |r| == |s|
  {
    if s == [] then [] else [LowerChar(s[0])] + Lower(s[1..])
  }

  /** The comparator closure handed to `sort_by`: a directory before anything else, then by lower-cased name. */
  function CompareEntries(a: DirEntryInfo, b: DirEntryInfo): (r: Ord)
    ensures a.fileType.IsDir() && !b.fileType.IsDir() ==> r == Less
    ensures !a.fileType.IsDir() && b.fileType.IsDir() ==> r == Greater
  {
    match CmpBool(a.fileType.IsDir(), b.fileType.IsDir()).Reverse()
    case Equal => CmpStr(Lower(a.fileName), Lower(b.fileName))
    case other => other
  }

  /**
   * The string order stated without recursion: `a` is a prefix of `b`, or at
   * the first position where they differ `a` has the smaller character.
   */
  ghost predicate LexLe(a: string, b: string) {
    a <= b || exists k :: 0 <= k < |a| && k < |b| && a[..k] == b[..k] && a[k] < b[k]
  }

  lemma {:induction false} CmpStrEqual(a: string, b: string)
    ensures CmpStr(a, b) == Equal <==> a == b
  {
    if a != [] && b != [] && a[0] == b[0] {
      CmpStrEqual(a[1..], b[1..]);
      if a[1..] == b[1..] {
        assert a == [a[0]] + a[1..] && b == [b[0]] + b[1..];
      }
    }
  }

  lemma {:induction false} CmpStrFlip(a: string, b: string)
    ensures CmpStr(b, a) == CmpStr(a, b).Reverse()
  {
    if a != [] && b != [] && a[0] == b[0] {
      CmpStrFlip(a[1..], b[1..]);
    }
  }

  lemma {:induction false} CmpStrTrans(a: string, b: string, c: string)
    requires CmpStr(a, b) != Greater && CmpStr(b, c) != Greater
    ensures CmpStr(a, c) != Greater
  {
    if a != [] && b != [] && c != [] && a[0] == b[0] == c[0] {
      CmpStrTrans(a[1..], b[1..], c[1..]);
    }
  }

  /** How the declarative order looks at the first characters of two non-empty strings. */
  lemma LexLeHead(a: string, b: string)
    requires a != [] && b != []
    ensures LexLe(a, b) <==> a[0] < b[0] || (a[0] == b[0] && LexLe(a[1..], b[1..]))
  {
    if a[0] == b[0] {
      LexLeTail(a, b);
    } else if a[0] < b[0] {
      assert a[..0] == b[..0];
    } else {
      assert !(a <= b);
      forall k | 0 <= k < |a| && k < |b| && a[..k] == b[..k]
        ensures !(a[k] < b[k])
      {
      }
    }
  }

  lemma LexLeTail(a: string, b: string)
    requires a != [] && b != [] && a[0] == b[0]
    ensures LexLe(a, b) <==> LexLe(a[1..], b[1..])
  {
    assert a == [a[0]] + a[1..] && b == [b[0]] + b[1..];
    if LexLe(a[1..], b[1..]) && !(a[1..] <= b[1..]) {
      var k :| 0 <= k < |a[1..]| && k < |b[1..]| && a[1..][..k] == b[1..][..k] && a[1..][k] < b[1..][k];
      assert a[..k + 1] == [a[0]] + a[1..][..k];
      assert b[..k + 1] == [b[0]] + b[1..][..k];
    }
    if LexLe(a, b) && !(a <= b) {
      var k :| 0 <= k < |a| && k < |b| && a[..k] == b[..k] && a[k] < b[k];
      assert a[1..][..k - 1] == a[..k][1..];
      assert b[1..][..k - 1] == b[..k][1..];
    }
  }

  /** The recursive comparison agrees with the declarative order, in both directions. */
  lemma {:induction false} CmpStrIsLexLe(a: string, b: string)
    ensures CmpStr(a, b) != Greater <==> LexLe(a, b)
  {
    if a == [] {
      assert a <= b;
    } else if b == [] {
      assert !(a <= b);
    } else {
      LexLeHead(a, b);
      if a[0] == b[0] {
        CmpStrIsLexLe(a[1..], b[1..]);
      }
    }
  }

  /** The key the comparator orders by. */
  function KeyOf(e: DirEntryInfo): (bool, string) {
    (e.fileType.IsDir(), Lower(e.fileName))
  }

  /** The comparator is a total preorder whose ties are exactly the entries with equal keys. */
  lemma CompareFacts(a: DirEntryInfo, b: DirEntryInfo)
    ensures CompareEntries(b, a) == CompareEntries(a, b).Reverse()
    ensures CompareEntries(a, b) == Equal <==> KeyOf(a) == KeyOf(b)
  {
    CmpStrFlip(Lower(a.fileName), Lower(b.fileName));
    CmpStrEqual(Lower(a.fileName), Lower(b.fileName));
  }

  /** Two entries that tie with a third tie with each other. */
  lemma EqualTies(a: DirEntryInfo, b: DirEntryInfo, c: DirEntryInfo)
    requires CompareEntries(a, c) == Equal && CompareEntries(b, c) == Equal
    ensures CompareEntries(a, b) == Equal
  {
    CompareFacts(a, c);
    CompareFacts(b, c);
    CompareFacts(a, b);
  }

  lemma CompareTrans(a: DirEntryInfo, b: DirEntryInfo, c: DirEntryInfo)
    requires CompareEntries(a, b) != Greater && CompareEntries(b, c) != Greater
    ensures CompareEntries(a, c) != Greater
  {
    if a.fileType.IsDir() == b.fileType.IsDir() == c.fileType.IsDir() {
      CmpStrTrans(Lower(a.fileName), Lower(b.fileName), Lower(c.fileName));
    }
  }

  /** Each entry compares no greater than the next one. */
  predicate Sorted(s: seq<DirEntryInfo>)
    decreases |s|
  {
    |s| < 2 || (CompareEntries(s[0], s[1]) != Greater && Sorted(s[1..]))
  }

  /** In a sorted sequence no entry compares after any later one. */
  lemma {:induction false} SortedPairs(s: seq<DirEntryInfo>, i: int, j: int)
    requires Sorted(s) && 0 <= i < j < |s|
    ensures CompareEntries(s[i], s[j]) != Greater
  {
    if i > 0 {
      SortedPairs(s[1..], i - 1, j - 1);
    } else if j > 1 {
      SortedPairs(s[1..], 0, j - 1);
      CompareTrans(s[0], s[1], s[j]);
    }
  }

  /** Places `x` before the first entry that does not compare below it. */
  function Insert(x: DirEntryInfo, t: seq<DirEntryInfo>): (r: seq<DirEntryInfo>)
    ensures multiset(r) == multiset(t) + multiset{x}
    ensures r[0] == x || r[0] == t[0]
  {
    if t == [] then [x]
    else if CompareEntries(x, t[0]) != Greater then [x] + t
    else
      var r := [t[0]] + Insert(x, t[1..]);
      assert t == [t[0]] + t[1..];
      r
  }

  lemma {:induction false} InsertSorted(x: DirEntryInfo, t: seq<DirEntryInfo>)
    requires Sorted(t)
    ensures Sorted(Insert(x, t))
  {
    if t == [] {
    } else if CompareEntries(x, t[0]) != Greater {
      assert ([x] + t)[1..] == t;
    } else {
      var r := Insert(x, t[1..]);
      InsertSorted(x, t[1..]);
      CompareFacts(x, t[0]);
      assert ([t[0]] + r)[1..] == r;
    }
  }

  /** `entries.sort_by(CompareEntries)`: a stable sort, here by insertion. */
  function SortEntries(s: seq<DirEntryInfo>): (r: seq<DirEntryInfo>)
    ensures multiset(r) == multiset(s)
  {
    if s == [] then []
    else
      var t := SortEntries(s[1..]);
      assert s == [s[0]] + s[1..];
      Insert(s[0], t)
  }

  /** The sorted listing is ordered by the comparator. */
  lemma {:induction false} SortEntriesSorted(s: seq<DirEntryInfo>)
    ensures Sorted(SortEntries(s))
  {
    if s != [] {
      SortEntriesSorted(s[1..]);
      InsertSorted(s[0], SortEntries(s[1..]));
    }
  }

  /**
   * A sorted listing puts every directory before every non-directory, and
   * within each group the lower-cased names ascend.
   */
  lemma SortedOrder(s: seq<DirEntryInfo>, i: int, j: int)
    requires Sorted(s) && 0 <= i < j < |s|
    ensures s[j].fileType.IsDir() ==> s[i].fileType.IsDir()
    ensures s[i].fileType.IsDir() == s[j].fileType.IsDir() ==>
              LexLe(Lower(s[i].fileName), Lower(s[j].fileName))
  {
    SortedPairs(s, i, j);
    CmpStrIsLexLe(Lower(s[i].fileName), Lower(s[j].fileName));
  }

  /** `[a]` when `a` ties with `x`, otherwise nothing. */
  function PeerOf(a: DirEntryInfo, x: DirEntryInfo): seq<DirEntryInfo> {
    if CompareEntries(a, x) == Equal then [a] else []
  }

  /** The entries of `s` that tie with `x` under the comparator, in order. */
  function Peers(s: seq<DirEntryInfo>, x: DirEntryInfo): seq<DirEntryInfo> {
    if s == [] then [] else PeerOf(s[0], x) + Peers(s[1..], x)
  }

  lemma PeersCons(a: DirEntryInfo, s: seq<DirEntryInfo>, x: DirEntryInfo)
    ensures Peers([a] + s, x) == PeerOf(a, x) + Peers(s, x)
  {
    assert ([a] + s)[1..] == s;
  }

  /** Two entries that both tie with `x` tie with each other, so inserting one never passes the other. */
  lemma PeersOneSided(y: DirEntryInfo, a: DirEntryInfo, x: DirEntryInfo)
    requires CompareEntries(y, a) == Greater
    ensures PeerOf(y, x) == [] || PeerOf(a, x) == []
  {
    if CompareEntries(y, x) == Equal && CompareEntries(a, x) == Equal {
      EqualTies(y, a, x);
    }
  }

  lemma {:induction false} InsertPeers(y: DirEntryInfo, t: seq<DirEntryInfo>, x: DirEntryInfo)
    ensures Peers(Insert(y, t), x) == PeerOf(y, x) + Peers(t, x)
  {
    if t == [] {
      assert Insert(y, t) == [y] + [];
      PeersCons(y, [], x);
    } else if CompareEntries(y, t[0]) != Greater {
      assert Insert(y, t) == [y] + t;
      PeersCons(y, t, x);
    } else {
      var r := Insert(y, t[1..]);
      assert Insert(y, t) == [t[0]] + r;
      assert t == [t[0]] + t[1..];
      InsertPeers(y, t[1..], x);
      PeersCons(t[0], r, x);
      PeersCons(t[0], t[1..], x);
      PeersOneSided(y, t[0], x);
      var rest := Peers(t[1..], x);
      if PeerOf(t[0], x) == [] {
        assert PeerOf(t[0], x) + (PeerOf(y, x) + rest) == PeerOf(y, x) + rest;
        assert PeerOf(t[0], x) + rest == rest;
      } else {
        assert PeerOf(y, x) + rest == rest;
        assert PeerOf(y, x) + (PeerOf(t[0], x) + rest) == PeerOf(t[0], x) + rest;
      }
    }
  }

  /**
   * The sort is stable: entries that tie under the comparator (same kind,
   * same lower-cased name) keep the relative order the listing gave them.
   */
  lemma {:induction false} SortStable(s: seq<DirEntryInfo>, x: DirEntryInfo)
    ensures Peers(SortEntries(s), x) == Peers(s, x)
  {
    if s != [] {
      SortStable(s[1..], x);
      InsertPeers(s[0], SortEntries(s[1..]), x);
    }
  }

  /** Self-exclusion keeps tied entries in their order: filtering before or after picking the ties agrees. */
  lemma {:induction false} RetainPeers(s: seq<DirEntryInfo>, o: Path, x: DirEntryInfo)
    ensures Peers(Retain(s, o), x) == Retain(Peers(s, x), o)
  {
    if s != [] {
      RetainPeers(s[1..], o, x);
      RetainAppend(PeerOf(s[0], x), Peers(s[1..], x), o);
      if s[0].path == o {
        assert Retain(PeerOf(s[0], x), o) == [];
      } else {
        PeersCons(s[0], Retain(s[1..], o), x);
        assert Retain(PeerOf(s[0], x), o) == PeerOf(s[0], x);
      }
    }
  }
}
