/**
 * db/storage_engine.h and db/storage_engine.cpp, less the merge itself (in
 * module Merge): the per-level lists of segments kept in lower-bound order,
 * the file map, the file id counter, choosing the files that may hold a key,
 * reading a segment's index and one of its values, and compaction's choice
 * of files, trivial move and bookkeeping.
 *
 * The level lists and the file map hold File values (db/file.h); the data
 * folder is a Disk, a map from path to contents, and the engine changes it
 * where the C creates, renames or removes files.
 */
module Engine {
  import opened Wrappers
  import opened Coding
  import opened Utils
  import opened Files
  import opened Segments
  import Merge
  import StorageBuffers
  import SkipListSpec

  // ------------------------------------------------------------------
  // The orders of std::sort and of the insertion loops
  // ------------------------------------------------------------------

  /**
   * The two orders files are sorted by: cmp (smaller lower bound first),
   * used for the level lists, and GetContainsFiles' lambda (larger file id
   * first).
   */
  datatype Order = ByLowerBound | ByNewest

  /** a goes strictly before b in order o. */
  predicate Precedes(o: Order, a: File, b: File) {
    match o
    case ByLowerBound => Less(a.lowerBound, b.lowerBound)
    case ByNewest => a.fileId > b.fileId
  }

  /** No file goes before a file ahead of it: what std::sort leaves. */
  predicate SortedBy(o: Order, s: seq<File>) {
    forall i, j :: 0 <= i < j < |s| ==> !Precedes(o, s[j], s[i])
  }

  /**
   * Both orders are strict weak orders, as std::sort demands: irreflexive,
   * transitive, and when a goes before c every b goes after a or before c.
   * For cmp that makes files with equal lower bounds the tied ones.
   */
  lemma {:induction false} StrictWeakOrder(o: Order, a: File, b: File, c: File)
    ensures !Precedes(o, a, a)
    ensures Precedes(o, a, b) && Precedes(o, b, c) ==> Precedes(o, a, c)
    ensures Precedes(o, a, c) ==> Precedes(o, a, b) || Precedes(o, b, c)
    ensures o == ByLowerBound ==> (!Precedes(o, a, b) && !Precedes(o, b, a) <==> a.lowerBound == b.lowerBound)
  {
    if o == ByLowerBound {
      LessIrreflexive(a.lowerBound);
      LessChain(a.lowerBound, b.lowerBound, c.lowerBound);
      LessChain(b.lowerBound, a.lowerBound, c.lowerBound);
      LessTrichotomy(a.lowerBound, b.lowerBound);
    }
  }

  /** Where the insertion loop stops: past every file that goes before f. */
  function Slot(o: Order, s: seq<File>, f: File): (p: nat)
    ensures p <= |s|
    ensures forall i :: 0 <= i < p ==> Precedes(o, s[i], f)
    ensures p < |s| ==> !Precedes(o, s[p], f)
    decreases |s|
  {
    if s == [] || !Precedes(o, s[0], f) then 0 else 1 + Slot(o, s[1..], f)
  }

  /** s with f inserted at its slot. */
  function Inserted(o: Order, s: seq<File>, f: File): seq<File> {
    var p := Slot(o, s, f);
    s[..p] + [f] + s[p..]
  }

  /**
   * The insertion loop of AddFile and UpdateMapAfterCompaction (for cmp), and
   * of the model's std::sort: walk while the file at `it` goes before f,
   * then insert f there.
   */
  method Place(o: Order, level: seq<File>, f: File) returns (r: seq<File>)
    ensures r == Inserted(o, level, f)
  {
    var it := 0;
    while it < |level| && Precedes(o, level[it], f)
      invariant it <= |level|
      invariant forall i :: 0 <= i < it ==> Precedes(o, level[i], f)
    {
      it := it + 1;
    }
    r := level[..it] + [f] + level[it..];
  }

  /** Where each file of s lands once x is put at position p. */
  lemma {:induction false} SpliceShape(s: seq<File>, p: nat, x: File)
    requires p <= |s|
    ensures var r := s[..p] + [x] + s[p..];
      && |r| == |s| + 1 && r[p] == x
      && (forall i :: 0 <= i < p ==> r[i] == s[i])
      && (forall i :: p < i < |r| ==> r[i] == s[i - 1])
  {
  }

  /** Putting x anywhere adds exactly x. */
  lemma {:induction false} SpliceCount(s: seq<File>, p: nat, x: File)
    requires p <= |s|
    ensures multiset(s[..p] + [x] + s[p..]) == multiset(s) + multiset{x}
  {
    assert s == s[..p] + s[p..];
  }

  /** Inserting at the slot keeps a sorted list sorted, and adds exactly f. */
  lemma {:induction false} InsertedSorted(o: Order, s: seq<File>, f: File)
    requires SortedBy(o, s)
    ensures SortedBy(o, Inserted(o, s, f))
    ensures multiset(Inserted(o, s, f)) == multiset(s) + multiset{f}
  {
    var p := Slot(o, s, f);
    var r := Inserted(o, s, f);
    SpliceShape(s, p, f);
    SpliceCount(s, p, f);
    forall i, j | 0 <= i < j < |r|
      ensures !Precedes(o, r[j], r[i])
    {
      if j == p {
        StrictWeakOrder(o, f, s[i], f);
      } else if i == p {
        if j - 1 > p {
          StrictWeakOrder(o, s[j - 1], s[p], f);
        }
      }
    }
  }

  /** std::sort: here an insertion sort, each file placed in turn. */
  method Sort(o: Order, s: seq<File>) returns (r: seq<File>)
    ensures multiset(r) == multiset(s) && SortedBy(o, r)
  {
    r := [];
    var i := 0;
    while i < |s|
      invariant i <= |s|
      invariant multiset(r) == multiset(s[..i]) && SortedBy(o, r)
    {
      InsertedSorted(o, r, s[i]);
      r := Place(o, r, s[i]);
      assert s[..i + 1] == s[..i] + [s[i]];
      i := i + 1;
    }
    assert s[..i] == s;
  }

  /** Two lists sorted strictly by one key that hold the same files are the same list. */
  lemma {:induction false} SortedUnique(a: seq<File>, b: seq<File>)
    requires multiset(a) == multiset(b)
    requires forall i, j :: 0 <= i < j < |a| ==> a[i].fileId > a[j].fileId
    requires forall i, j :: 0 <= i < j < |b| ==> b[i].fileId > b[j].fileId
    ensures a == b
    decreases |a|
  {
    assert |a| == |multiset(a)| == |b|;
    if a != [] {
      assert a[0] in multiset(b) && b[0] in multiset(a);
      var i :| 0 <= i < |b| && b[i] == a[0];
      var j :| 0 <= j < |a| && a[j] == b[0];
      assert i == 0;
      Tail(a);
      Tail(b);
      SortedUnique(a[1..], b[1..]);
    }
  }

  // ------------------------------------------------------------------
  // Erasing a file from its level
  // ------------------------------------------------------------------

  /** The position of the first file with the given id, |s| when there is none. */
  function FirstWithId(s: seq<File>, id: int): (k: nat)
    ensures k <= |s|
    ensures forall i :: 0 <= i < k ==> s[i].fileId != id
    ensures k < |s| ==> s[k].fileId == id
    decreases |s|
  {
    if s == [] then 0 else if s[0].fileId == id then 0 else 1 + FirstWithId(s[1..], id)
  }

  /** The level with its first file of the given id taken out. */
  function Erased(s: seq<File>, id: int): seq<File> {
    var k := FirstWithId(s, id);
    if k < |s| then s[..k] + s[k + 1..] else s
  }

  /** The erase loop of UpdateMapAfterCompaction: find the first file with the id and erase it. */
  method EraseFile(level: seq<File>, id: int) returns (r: seq<File>)
    ensures r == Erased(level, id)
  {
    var it := 0;
    while it < |level| && level[it].fileId != id
      invariant it <= |level|
      invariant forall i :: 0 <= i < it ==> level[i].fileId != id
    {
      it := it + 1;
    }
    if it < |level| {
      r := level[..it] + level[it + 1..];
    } else {
      r := level;
    }
  }

  /**
   * Erasing keeps the level sorted and every file of another id; it removes
   * one file of the id, and with distinct ids none is left.
   */
  lemma {:induction false} ErasedKeeps(o: Order, s: seq<File>, id: int)
    ensures SortedBy(o, s) ==> SortedBy(o, Erased(s, id))
    ensures forall f :: f in s && f.fileId != id ==> f in Erased(s, id)
    ensures forall f :: f in Erased(s, id) ==> f in s
    ensures (forall i, j :: 0 <= i < j < |s| ==> s[i].fileId != s[j].fileId) ==>
              forall f :: f in Erased(s, id) ==> f.fileId != id
  {
    var k := FirstWithId(s, id);
    var r := Erased(s, id);
    if k < |s| {
      RemovedAt(s, k, r);
      forall f | f in s && f.fileId != id
        ensures f in r
      {
        var i :| 0 <= i < |s| && s[i] == f;
        assert r[if i < k then i else i - 1] == f;
      }
    }
  }

  /** Taking out position k keeps the files before it in place and moves the ones after it one down. */
  lemma {:induction false} RemovedAt(s: seq<File>, k: nat, r: seq<File>)
    requires k < |s| && r == s[..k] + s[k + 1..]
    ensures |r| == |s| - 1
    ensures forall i :: 0 <= i < |r| ==> r[i] == s[if i < k then i else i + 1]
    ensures forall o :: SortedBy(o, s) ==> SortedBy(o, r)
    ensures forall f :: f in r ==> f in s
  {
    assert forall i :: 0 <= i < |r| ==> r[i] == s[if i < k then i else i + 1];
    forall f | f in r
      ensures f in s
    {
      var i :| 0 <= i < |r| && r[i] == f;
    }
  }

  // ------------------------------------------------------------------
  // The files that may hold a key
  // ------------------------------------------------------------------

  /** lower <= key <= upper. */
  predicate Covers(f: File, key: Bytes) {
    !Less(key, f.lowerBound) && !Less(f.upperBound, key)
  }

  /**
   * The files GetContainsFiles' loop keeps from a level: it walks while
   * key >= lower and keeps the files with key <= upper.
   */
  function Scanned(level: seq<File>, key: Bytes): (r: seq<File>)
    ensures |r| <= |level|
    ensures forall f :: f in r ==> f in level && Covers(f, key)
    decreases |level|
  {
    if level == [] || Less(key, level[0].lowerBound) then []
    else (if Less(level[0].upperBound, key) then [] else [level[0]]) + Scanned(level[1..], key)
  }

  /** Every file of the level whose range holds the key, in level order. */
  function Covering(level: seq<File>, key: Bytes): seq<File>
    decreases |level|
  {
    if level == [] then []
    else (if Covers(level[0], key) then [level[0]] else []) + Covering(level[1..], key)
  }

  lemma {:induction false} CoveringMember(level: seq<File>, key: Bytes)
    ensures forall f :: f in Covering(level, key) <==> f in level && Covers(f, key)
    decreases |level|
  {
    if level != [] {
      CoveringMember(level[1..], key);
      assert level == [level[0]] + level[1..];
    }
  }

  /** A level whose files all start past the key covers it nowhere. */
  lemma {:induction false} CoveringNone(level: seq<File>, key: Bytes)
    requires forall i :: 0 <= i < |level| ==> Less(key, level[i].lowerBound)
    ensures Covering(level, key) == []
    decreases |level|
  {
    if level != [] {
      CoveringNone(level[1..], key);
    }
  }

  /**
   * On a level sorted by lower bound, stopping at the first file that starts
   * past the key loses nothing: the loop keeps exactly the covering files.
   */
  lemma {:induction false} ScannedCovering(level: seq<File>, key: Bytes)
    requires SortedBy(ByLowerBound, level)
    ensures Scanned(level, key) == Covering(level, key)
    decreases |level|
  {
    if level != [] {
      assert SortedBy(ByLowerBound, level[1..]) by {
        forall i, j | 0 <= i < j < |level| - 1
          ensures !Precedes(ByLowerBound, level[1..][j], level[1..][i])
        {
          assert level[1..][j] == level[j + 1] && level[1..][i] == level[i + 1];
        }
      }
      if Less(key, level[0].lowerBound) {
        forall i | 0 <= i < |level|
          ensures Less(key, level[i].lowerBound)
        {
          if i > 0 {
            LessTrichotomy(level[0].lowerBound, level[i].lowerBound);
            LessChain(key, level[0].lowerBound, level[i].lowerBound);
          }
        }
        CoveringNone(level, key);
      } else {
        ScannedCovering(level[1..], key);
      }
    }
  }

  /** One turn of the scan: the file at i is kept when it ends at or after the key. */
  lemma {:induction false} ScannedStep(level: seq<File>, i: nat, key: Bytes, kept: seq<File>, more: seq<File>)
    requires i < |level| && !Less(key, level[i].lowerBound)
    requires more == if Less(level[i].upperBound, key) then [] else [level[i]]
    ensures kept + Scanned(level[i..], key) == (kept + more) + Scanned(level[i + 1..], key)
  {
    assert level[i..][1..] == level[i + 1..];
  }

  /** The scan stops at the end of the level or at the first file that starts past the key. */
  lemma {:induction false} ScannedEnd(level: seq<File>, i: nat, key: Bytes)
    requires i <= |level| && (i == |level| || Less(key, level[i].lowerBound))
    ensures Scanned(level[i..], key) == []
  {
    if i < |level| {
      assert level[i..][0] == level[i];
    }
  }

  /** The level loop of GetContainsFiles and its sort: the kept files, newest first. */
  method ContainsFilesIn(level: seq<File>, key: Bytes) returns (tmp: seq<File>)
    ensures multiset(tmp) == multiset(Scanned(level, key))
    ensures SortedBy(ByNewest, tmp)
  {
    var kept := ScanLevel(level, key);
    tmp := Sort(ByNewest, kept);
  }

  /** The scan of one level: the files whose range holds key, up to the first that starts past it. */
  method ScanLevel(level: seq<File>, key: Bytes) returns (kept: seq<File>)
    ensures kept == Scanned(level, key)
  {
    kept := [];
    var i := 0;
    assert level[0..] == level;
    while i < |level| && !Less(key, level[i].lowerBound)
      invariant i <= |level|
      invariant kept + Scanned(level[i..], key) == Scanned(level, key)
    {
      var more := if Less(level[i].upperBound, key) then [] else [level[i]];
      ScannedStep(level, i, key, kept, more);
      kept := kept + more;
      i := i + 1;
    }
    ScannedEnd(level, i, key);
    assert kept + [] == kept;
  }

  /** Dropping the head of a list drops one copy of it. */
  lemma {:induction false} Tail(a: seq<File>)
    requires a != []
    ensures multiset(a[1..]) == multiset(a) - multiset{a[0]}
  {
    assert a == [a[0]] + a[1..];
  }

  /** The least element of a nonempty set of level ids. */
  lemma {:induction false} Least(s: set<int>) returns (m: int)
    requires s != {}
    ensures m in s && forall x :: x in s ==> m <= x
    decreases |s|
  {
    assert exists y :: y in s by {
      if forall y :: y !in s {
        assert false;
      }
    }
    var y :| y in s;
    if s == {y} {
      m := y;
    } else {
      var t := Least(s - {y});
      m := if y < t then y else t;
      forall x | x in s
        ensures m <= x
      {
        if x != y {
          assert x in s - {y};
        }
      }
    }
  }

  // ------------------------------------------------------------------
  // Choosing what to compact
  // ------------------------------------------------------------------

  /** The larger of two bounds, as the fan-in loop keeps its upper bound. */
  function Larger(a: Bytes, b: Bytes): Bytes {
    if Less(a, b) then b else a
  }

  /** The upper bound after taking in files fs, starting from upper. */
  function Reach(upper: Bytes, fs: seq<File>): Bytes {
    if fs == [] then upper else Larger(Reach(upper, fs[..|fs| - 1]), fs[|fs| - 1].upperBound)
  }

  /** The reach is the largest of the starting bound and the files' upper bounds. */
  lemma {:induction false} ReachLargest(upper: Bytes, fs: seq<File>)
    ensures !Less(Reach(upper, fs), upper)
    ensures forall i :: 0 <= i < |fs| ==> !Less(Reach(upper, fs), fs[i].upperBound)
    ensures Reach(upper, fs) == upper || exists i :: 0 <= i < |fs| && Reach(upper, fs) == fs[i].upperBound
    decreases |fs|
  {
    LessIrreflexive(upper);
    if fs != [] {
      var n := |fs| - 1;
      var r0 := Reach(upper, fs[..n]);
      assert Reach(upper, fs) == Larger(r0, fs[n].upperBound);
      ReachLargest(upper, fs[..n]);
      LessIrreflexive(fs[n].upperBound);
      LessChain(r0, fs[n].upperBound, upper);
      forall i | 0 <= i < |fs|
        ensures !Less(Reach(upper, fs), fs[i].upperBound)
      {
        if i < n {
          assert fs[..n][i] == fs[i];
          LessChain(r0, fs[n].upperBound, fs[i].upperBound);
        }
      }
      if Reach(upper, fs) != upper && Reach(upper, fs) != fs[n].upperBound {
        var i :| 0 <= i < n && r0 == fs[..n][i].upperBound;
        assert fs[i] == fs[..n][i];
      }
    }
  }

  /**
   * Each file of fs starts no later than the upper bound reached by the
   * files before it: a run the level-0 fan-in takes in.
   */
  predicate Chained(upper: Bytes, fs: seq<File>) {
    fs == [] || (Chained(upper, fs[..|fs| - 1]) && !Less(Reach(upper, fs[..|fs| - 1]), fs[|fs| - 1].lowerBound))
  }

  /** Taking in one more file that starts within the reach. */
  lemma {:induction false} ChainedSnoc(upper: Bytes, fs: seq<File>, f: File, r: Bytes)
    requires Chained(upper, fs) && r == Reach(upper, fs) && !Less(r, f.lowerBound)
    ensures Chained(upper, fs + [f]) && Reach(upper, fs + [f]) == Larger(r, f.upperBound)
  {
    assert (fs + [f])[..|fs|] == fs;
  }

  /** Chained, file by file: the j-th file starts within the reach of the first j. */
  lemma {:induction false} ChainedAt(upper: Bytes, fs: seq<File>, j: nat)
    requires Chained(upper, fs) && j < |fs|
    ensures !Less(Reach(upper, fs[..j]), fs[j].lowerBound)
    decreases |fs|
  {
    var n := |fs| - 1;
    if j < n {
      ChainedAt(upper, fs[..n], j);
      assert fs[..n][..j] == fs[..j] && fs[..n][j] == fs[j];
    }
  }

  /**
   * FindOverlapFilesLevel0: from the second file of level 0 on, take every
   * file that starts no later than the upper bound reached so far, widening
   * it, and stop at the first file that starts past it. k ends the taken run.
   */
  method FindOverlapFilesLevel0(candidates: seq<File>, compact: seq<File>, upper: Bytes)
    returns (compact': seq<File>, upper': Bytes, ghost k: nat)
    requires |candidates| > 0
    ensures 1 <= k <= |candidates|
    ensures compact' == compact + candidates[1..k]
    ensures Chained(upper, candidates[1..k]) && upper' == Reach(upper, candidates[1..k])
    ensures k < |candidates| ==> Less(upper', candidates[k].lowerBound)
  {
    compact', upper' := compact, upper;
    var i := 1;
    assert candidates[1..1] == [];
    while i < |candidates|
      invariant 1 <= i <= |candidates|
      invariant compact' == compact + candidates[1..i]
      invariant Chained(upper, candidates[1..i]) && upper' == Reach(upper, candidates[1..i])
    {
      if !Less(upper', candidates[i].lowerBound) {
        var taken, f := candidates[1..i], candidates[i];
        ChainedSnoc(upper, taken, f, upper');
        assert candidates[1..i + 1] == taken + [f];
        compact' := compact' + [f];
        if Less(upper', f.upperBound) {
          upper' := f.upperBound;
        }
        i := i + 1;
      } else {
        break;
      }
    }
    k := i;
  }

  /** lower <= upperbound and upper >= lowerbound: the file's range meets [lowerbound, upperbound]. */
  predicate Overlaps(f: File, lower: Bytes, upper: Bytes) {
    !Less(upper, f.lowerBound) && !Less(f.upperBound, lower)
  }

  /** The files of a level whose ranges meet [lower, upper], in level order. */
  function Overlapping(level: seq<File>, lower: Bytes, upper: Bytes): (r: seq<File>)
    ensures forall f :: f in r <==> f in level && Overlaps(f, lower, upper)
  {
    if level == [] then []
    else
      var n := |level| - 1;
      assert level == level[..n] + [level[n]];
      Overlapping(level[..n], lower, upper) + (if Overlaps(level[n], lower, upper) then [level[n]] else [])
  }

  /** FindOverlapFilesBasedOnBound: every file of the next level whose range meets the bounds is added. */
  method FindOverlapFilesBasedOnBound(candidates: seq<File>, compact: seq<File>, lower: Bytes, upper: Bytes)
    returns (compact': seq<File>)
    ensures compact' == compact + Overlapping(candidates, lower, upper)
  {
    compact' := compact;
    var i := 0;
    while i < |candidates|
      invariant i <= |candidates|
      invariant compact' == compact + Overlapping(candidates[..i], lower, upper)
    {
      assert candidates[..i + 1][..i] == candidates[..i];
      if Overlaps(candidates[i], lower, upper) {
        compact' := compact' + [candidates[i]];
      }
      i := i + 1;
    }
    assert candidates[..i] == candidates;
  }

  // ------------------------------------------------------------------
  // The level lists and the file map
  // ------------------------------------------------------------------

  /** level_files_ and files_map_ together. */
  datatype Tables = Tables(levels: map<int, seq<File>>, files: map<int, File>)

  /** level_files_[l]: the level's list, or the empty list operator[] puts there. */
  function LevelOf(levels: map<int, seq<File>>, l: int): seq<File> {
    if l in levels then levels[l] else []
  }

  predicate LevelsSorted(levels: map<int, seq<File>>) {
    forall l :: l in levels ==> SortedBy(ByLowerBound, levels[l])
  }

  /** Each file sits in the list of its own level. */
  predicate LevelsLabelled(levels: map<int, seq<File>>) {
    forall l, f :: l in levels && f in levels[l] ==> f.levelId == l
  }

  /** files_map_ is keyed by file id. */
  predicate FilesKeyed(files: map<int, File>) {
    forall id :: id in files ==> files[id].fileId == id
  }

  /** What the engine keeps true of its tables: every level sorted by lower bound, every file where its ids say. */
  predicate WellFormed(t: Tables) {
    LevelsSorted(t.levels) && LevelsLabelled(t.levels) && FilesKeyed(t.files)
  }

  /** No two files of one level share an id. */
  predicate IdsDistinct(levels: map<int, seq<File>>) {
    forall l, i, j :: l in levels && 0 <= i < j < |levels[l]| ==> levels[l][i].fileId != levels[l][j].fileId
  }

  /** Inserting a file into its level (at its slot) and into the file map. */
  function Installed(t: Tables, f: File): Tables {
    Tables(t.levels[f.levelId := Inserted(ByLowerBound, LevelOf(t.levels, f.levelId), f)], t.files[f.fileId := f])
  }

  /** Erasing a file's id from its level and from the file map. */
  function Removed(t: Tables, f: File): Tables {
    Tables(t.levels[f.levelId := Erased(LevelOf(t.levels, f.levelId), f.fileId)], t.files - {f.fileId})
  }

  /** UpdateMapAfterCompaction's first loop: each compacted file removed in turn. */
  function RemoveAll(t: Tables, fs: seq<File>): Tables {
    if fs == [] then t else Removed(RemoveAll(t, fs[..|fs| - 1]), fs[|fs| - 1])
  }

  /** UpdateMapAfterCompaction's second loop: each new file installed in turn. */
  function InstallAll(t: Tables, fs: seq<File>): Tables {
    if fs == [] then t else Installed(InstallAll(t, fs[..|fs| - 1]), fs[|fs| - 1])
  }

  /** The ids of a list of files. */
  function IdsOf(fs: seq<File>): set<int> {
    set f | f in fs :: f.fileId
  }

  /** Installing keeps the tables well formed and maps the file's id to it. */
  lemma {:induction false} InstalledWellFormed(t: Tables, f: File)
    requires WellFormed(t)
    ensures WellFormed(Installed(t, f)) && Installed(t, f).files[f.fileId] == f
  {
    var s := LevelOf(t.levels, f.levelId);
    InsertedSorted(ByLowerBound, s, f);
    InsertedLabelled(s, f);
    LevelUpdated(t.levels, f.levelId, Inserted(ByLowerBound, s, f));
  }

  /** Inserting a file into a list of files of its level gives a list of files of its level. */
  lemma {:induction false} InsertedLabelled(s: seq<File>, f: File)
    requires forall g :: g in s ==> g.levelId == f.levelId
    ensures forall g :: g in Inserted(ByLowerBound, s, f) ==> g.levelId == f.levelId
  {
    var r := Inserted(ByLowerBound, s, f);
    SpliceCount(s, Slot(ByLowerBound, s, f), f);
    forall g | g in r
      ensures g.levelId == f.levelId
    {
      assert g in multiset(r);
    }
  }

  /** Replacing one level by a sorted list of files of that level keeps the levels sorted and labelled. */
  lemma {:induction false} LevelUpdated(levels: map<int, seq<File>>, l: int, r: seq<File>)
    requires LevelsSorted(levels) && LevelsLabelled(levels)
    requires SortedBy(ByLowerBound, r) && forall g :: g in r ==> g.levelId == l
    ensures LevelsSorted(levels[l := r]) && LevelsLabelled(levels[l := r])
  {
  }

  /** Installing adds the file to its level and keeps every file of every level. */
  lemma {:induction false} InstalledHas(t: Tables, f: File)
    ensures f in LevelOf(Installed(t, f).levels, f.levelId)
    ensures forall l, g :: g in LevelOf(t.levels, l) ==> g in LevelOf(Installed(t, f).levels, l)
  {
    var s := LevelOf(t.levels, f.levelId);
    SpliceCount(s, Slot(ByLowerBound, s, f), f);
    var r := Inserted(ByLowerBound, s, f);
    assert f in multiset(r);
    forall l, g | g in LevelOf(t.levels, l)
      ensures g in LevelOf(Installed(t, f).levels, l)
    {
      if l == f.levelId {
        assert g in multiset(r);
      }
    }
  }

  /** Removing keeps the tables well formed. */
  lemma {:induction false} RemovedWellFormed(t: Tables, f: File)
    requires WellFormed(t)
    ensures WellFormed(Removed(t, f))
  {
    ErasedKeeps(ByLowerBound, LevelOf(t.levels, f.levelId), f.fileId);
  }

  /** Removing keeps every file of another id and brings in none. */
  lemma {:induction false} RemovedStays(t: Tables, f: File)
    ensures forall l, g :: g in LevelOf(t.levels, l) && g.fileId != f.fileId ==> g in LevelOf(Removed(t, f).levels, l)
    ensures forall l, g :: g in LevelOf(Removed(t, f).levels, l) ==> g in LevelOf(t.levels, l)
  {
    ErasedKeeps(ByLowerBound, LevelOf(t.levels, f.levelId), f.fileId);
  }

  /** With distinct ids per level, removing leaves them distinct and leaves no file of the removed id in its level. */
  lemma {:induction false} RemovedGone(t: Tables, f: File)
    requires IdsDistinct(t.levels)
    ensures IdsDistinct(Removed(t, f).levels)
    ensures forall g :: g in LevelOf(Removed(t, f).levels, f.levelId) ==> g.fileId != f.fileId
  {
    var s := LevelOf(t.levels, f.levelId);
    assert forall i, j :: 0 <= i < j < |s| ==> s[i].fileId != s[j].fileId;
    ErasedKeeps(ByLowerBound, s, f.fileId);
    ErasedDistinct(s, f.fileId);
  }

  /** Erasing a file keeps the other ids of a level distinct. */
  lemma {:induction false} ErasedDistinct(s: seq<File>, id: int)
    requires forall i, j :: 0 <= i < j < |s| ==> s[i].fileId != s[j].fileId
    ensures var r := Erased(s, id); forall i, j :: 0 <= i < j < |r| ==> r[i].fileId != r[j].fileId
  {
    var k := FirstWithId(s, id);
    var r := Erased(s, id);
    if k < |s| {
      assert forall i :: 0 <= i < |r| ==> r[i] == s[if i < k then i else i + 1];
    }
  }

  /** No two files of a list share an id. */
  predicate DistinctIds(fs: seq<File>) {
    forall i, j :: 0 <= i < j < |fs| ==> fs[i].fileId != fs[j].fileId
  }

  /** The removal loop keeps the tables well formed. */
  lemma {:induction false} RemoveAllWellFormed(t: Tables, fs: seq<File>)
    requires WellFormed(t)
    ensures WellFormed(RemoveAll(t, fs))
    decreases |fs|
  {
    if fs != [] {
      var n := |fs| - 1;
      RemoveAllWellFormed(t, fs[..n]);
      RemovedWellFormed(RemoveAll(t, fs[..n]), fs[n]);
    }
  }

  /** The removal loop takes exactly the ids of fs out of the file map. */
  lemma {:induction false} RemoveAllFiles(t: Tables, fs: seq<File>)
    ensures RemoveAll(t, fs).files == t.files - IdsOf(fs)
    decreases |fs|
  {
    if fs != [] {
      var n := |fs| - 1;
      var front, f := fs[..n], fs[n];
      assert fs == front + [f];
      RemoveAllFiles(t, front);
      assert IdsOf(fs) == IdsOf(front) + {f.fileId};
    }
  }

  /** The removal loop keeps every file whose id is not removed and brings in none. */
  lemma {:induction false} RemoveAllStays(t: Tables, fs: seq<File>)
    ensures forall l, g :: g in LevelOf(t.levels, l) && g.fileId !in IdsOf(fs) ==> g in LevelOf(RemoveAll(t, fs).levels, l)
    ensures forall l, g :: g in LevelOf(RemoveAll(t, fs).levels, l) ==> g in LevelOf(t.levels, l)
    decreases |fs|
  {
    if fs != [] {
      var n := |fs| - 1;
      var front, f := fs[..n], fs[n];
      assert fs == front + [f];
      RemoveAllStays(t, front);
      RemovedStays(RemoveAll(t, front), f);
      assert IdsOf(fs) == IdsOf(front) + {f.fileId};
    }
  }

  /** With distinct ids per level, no removed file is left in its level. */
  lemma {:induction false} RemoveAllGone(t: Tables, fs: seq<File>)
    requires IdsDistinct(t.levels)
    ensures IdsDistinct(RemoveAll(t, fs).levels)
    ensures forall g, h :: g in fs && h in LevelOf(RemoveAll(t, fs).levels, g.levelId) ==> h.fileId != g.fileId
    decreases |fs|
  {
    if fs != [] {
      var n := |fs| - 1;
      var front, f := fs[..n], fs[n];
      assert fs == front + [f];
      var u0 := RemoveAll(t, front);
      RemoveAllGone(t, front);
      RemovedGone(u0, f);
      RemovedStays(u0, f);
    }
  }

  /** The installation loop keeps the tables well formed. */
  lemma {:induction false} InstallAllWellFormed(t: Tables, fs: seq<File>)
    requires WellFormed(t)
    ensures WellFormed(InstallAll(t, fs))
    decreases |fs|
  {
    if fs != [] {
      var n := |fs| - 1;
      InstallAllWellFormed(t, fs[..n]);
      InstalledWellFormed(InstallAll(t, fs[..n]), fs[n]);
    }
  }

  /** The installation loop puts every new file in its level and keeps every file there before. */
  lemma {:induction false} InstallAllHas(t: Tables, fs: seq<File>)
    ensures forall g :: g in fs ==> g in LevelOf(InstallAll(t, fs).levels, g.levelId)
    ensures forall l, g :: g in LevelOf(t.levels, l) ==> g in LevelOf(InstallAll(t, fs).levels, l)
    decreases |fs|
  {
    if fs != [] {
      var n := |fs| - 1;
      var front, f := fs[..n], fs[n];
      assert fs == front + [f];
      InstallAllHas(t, front);
      InstalledHas(InstallAll(t, front), f);
    }
  }

  /** The installation loop gives the map exactly the old ids and the new ones. */
  lemma {:induction false} InstallAllKeys(t: Tables, fs: seq<File>)
    ensures InstallAll(t, fs).files.Keys == t.files.Keys + IdsOf(fs)
    decreases |fs|
  {
    if fs != [] {
      var n := |fs| - 1;
      var front, f := fs[..n], fs[n];
      assert fs == front + [f];
      InstallAllKeys(t, front);
      assert IdsOf(fs) == IdsOf(front) + {f.fileId};
    }
  }

  /** The installation loop leaves the entries of ids it does not install alone. */
  lemma {:induction false} InstallAllOthers(t: Tables, fs: seq<File>)
    ensures forall id :: id in t.files && id !in IdsOf(fs) ==> id in InstallAll(t, fs).files && InstallAll(t, fs).files[id] == t.files[id]
    decreases |fs|
  {
    if fs != [] {
      var n := |fs| - 1;
      var front, f := fs[..n], fs[n];
      assert fs == front + [f];
      InstallAllKeys(t, front);
      InstallAllOthers(t, front);
      assert IdsOf(fs) == IdsOf(front) + {f.fileId};
    }
  }

  /** With distinct ids, the installation loop maps each new id to its own file. */
  lemma {:induction false} InstallAllMaps(t: Tables, fs: seq<File>)
    requires DistinctIds(fs)
    ensures forall g :: g in fs ==> g.fileId in InstallAll(t, fs).files && InstallAll(t, fs).files[g.fileId] == g
    decreases |fs|
  {
    if fs != [] {
      var n := |fs| - 1;
      var front, f := fs[..n], fs[n];
      assert fs == front + [f];
      assert DistinctIds(front);
      InstallAllMaps(t, front);
      forall g | g in front
        ensures g.fileId != f.fileId
      {
        var i :| 0 <= i < n && front[i] == g;
        assert fs[i] == g;
      }
      MapsAfterPut(InstallAll(t, front).files, front, f);
    }
  }

  /** Putting f into a map that holds every file of front under its id, none of them f's, holds every file of front + [f]. */
  lemma MapsAfterPut(m: map<int, File>, front: seq<File>, f: File)
    requires forall g :: g in front ==> g.fileId in m && m[g.fileId] == g
    requires forall g :: g in front ==> g.fileId != f.fileId
    ensures forall g :: g in front + [f] ==> g.fileId in m[f.fileId := f] && m[f.fileId := f][g.fileId] == g
  {
  }

  /** The removal loop of UpdateMapAfterCompaction: each file's id erased from its level and from the map. */
  method RemoveFiles(t: Tables, fs: seq<File>) returns (u: Tables)
    ensures u == RemoveAll(t, fs)
  {
    u := t;
    var i := 0;
    while i < |fs|
      invariant i <= |fs| && u == RemoveAll(t, fs[..i])
    {
      var f := fs[i];
      var level := EraseFile(LevelOf(u.levels, f.levelId), f.fileId);
      assert fs[..i + 1][..i] == fs[..i];
      u := Tables(u.levels[f.levelId := level], u.files - {f.fileId});
      i := i + 1;
    }
    assert fs[..i] == fs;
  }

  /** The installation loop of UpdateMapAfterCompaction: each file placed in its level and mapped by id. */
  method InstallFiles(t: Tables, fs: seq<File>) returns (u: Tables)
    ensures u == InstallAll(t, fs)
  {
    u := t;
    var i := 0;
    while i < |fs|
      invariant i <= |fs| && u == InstallAll(t, fs[..i])
    {
      var f := fs[i];
      var level := Place(ByLowerBound, LevelOf(u.levels, f.levelId), f);
      assert fs[..i + 1][..i] == fs[..i];
      u := Tables(u.levels[f.levelId := level], u.files[f.fileId := f]);
      i := i + 1;
    }
    assert fs[..i] == fs;
  }

  /** The paths of a list of files in the data folder. */
  function PathsOf(folder: string, fs: seq<File>): set<string> {
    set f | f in fs :: FilePath(folder, f.fileName)
  }

  /** The release loop with need_remove_file: each old file removed from the folder. */
  method DeleteFiles(folder: string, disk: Disk, fs: seq<File>) returns (d: Disk)
    ensures d == disk - PathsOf(folder, fs)
  {
    d := disk;
    var i := 0;
    while i < |fs|
      invariant i <= |fs| && d == disk - PathsOf(folder, fs[..i])
    {
      assert PathsOf(folder, fs[..i + 1]) == PathsOf(folder, fs[..i]) + {FilePath(folder, fs[i].fileName)} by {
        assert fs[..i + 1] == fs[..i] + [fs[i]];
      }
      d := d - {FilePath(folder, fs[i].fileName)};
      i := i + 1;
    }
    assert fs[..i] == fs;
  }

  /** rename(from, to): the contents move to the new path; nothing happens when there is nothing at from. */
  function Renamed(disk: Disk, from: string, to: string): (d: Disk)
    ensures from in disk ==> to in d && d[to] == disk[from] && (from != to ==> from !in d)
    ensures from !in disk ==> d == disk
  {
    if from in disk then (disk - {from})[to := disk[from]] else disk
  }

  // ------------------------------------------------------------------
  // Scanning the data folder
  // ------------------------------------------------------------------

  /** Names readdir gives that the scan skips: ".", ".." and hidden files. */
  predicate Hidden(name: string) {
    |name| > 0 && name[0] == '.'
  }

  /** Every listed name the scan does not skip opens as a segment (the constructor aborts otherwise). */
  predicate AllOpen(folder: string, disk: Disk, names: seq<string>) {
    forall i :: 0 <= i < |names| && !Hidden(names[i]) ==> Opens(folder, disk, names[i])
  }

  /** push_back onto the file's level, and the file map entry. */
  function Appended(t: Tables, f: File): Tables {
    Tables(t.levels[f.levelId := LevelOf(t.levels, f.levelId) + [f]], t.files[f.fileId := f])
  }

  /** The tables after the scan has read the first n names. */
  function Listing(folder: string, disk: Disk, names: seq<string>, n: nat): Tables
    requires n <= |names| && AllOpen(folder, disk, names)
  {
    if n == 0 then Tables(map[], map[])
    else
      var t := Listing(folder, disk, names, n - 1);
      if Hidden(names[n - 1]) then t else Appended(t, Opened(folder, disk, names[n - 1]))
  }

  /** file_id_ after the scan has read the first n names: the largest id met, -1 for none. */
  function LargestId(folder: string, disk: Disk, names: seq<string>, n: nat): int
    requires n <= |names| && AllOpen(folder, disk, names)
  {
    if n == 0 then -1
    else
      var m := LargestId(folder, disk, names, n - 1);
      if Hidden(names[n - 1]) then m
      else
        var id := Opened(folder, disk, names[n - 1]).fileId;
        if m < id then id else m
  }

  /** The scan puts each file in its own level and maps each id to a file of that id; the id counter is at least every id read. */
  lemma {:induction false} ListingLabelled(folder: string, disk: Disk, names: seq<string>, n: nat)
    requires n <= |names| && AllOpen(folder, disk, names)
    ensures LevelsLabelled(Listing(folder, disk, names, n).levels) && FilesKeyed(Listing(folder, disk, names, n).files)
    ensures forall id :: id in Listing(folder, disk, names, n).files ==> id <= LargestId(folder, disk, names, n)
  {
    if n > 0 {
      var t := Listing(folder, disk, names, n - 1);
      ListingLabelled(folder, disk, names, n - 1);
      if !Hidden(names[n - 1]) {
        var f := Opened(folder, disk, names[n - 1]);
        AppendedLabelled(t, f);
      }
    }
  }

  lemma {:induction false} AppendedLabelled(t: Tables, f: File)
    requires LevelsLabelled(t.levels) && FilesKeyed(t.files)
    ensures LevelsLabelled(Appended(t, f).levels) && FilesKeyed(Appended(t, f).files)
  {
    var level := LevelOf(t.levels, f.levelId) + [f];
    forall g | g in level
      ensures g.levelId == f.levelId
    {
    }
  }

  /** The loop of the constructor over the directory's entries. */
  method ScanFolder(folder: string, disk: Disk, names: seq<string>) returns (t: Tables, largest: int)
    requires AllOpen(folder, disk, names)
    ensures t == Listing(folder, disk, names, |names|) && largest == LargestId(folder, disk, names, |names|)
  {
    t, largest := Tables(map[], map[]), -1;
    var i := 0;
    while i < |names|
      invariant i <= |names|
      invariant t == Listing(folder, disk, names, i) && largest == LargestId(folder, disk, names, i)
    {
      var name := names[i];
      if !Hidden(name) {
        var r := OpenFile(folder, disk, name);
        var f := r.value;
        t := Tables(t.levels[f.levelId := LevelOf(t.levels, f.levelId) + [f]], t.files[f.fileId := f]);
        largest := if largest < f.fileId then f.fileId else largest;
      }
      i := i + 1;
    }
  }

  /** The constructor's second loop: each level sorted with cmp. */
  method SortLevels(levels: map<int, seq<File>>) returns (sorted: map<int, seq<File>>)
    ensures sorted.Keys == levels.Keys && LevelsSorted(sorted)
    ensures forall l :: l in levels ==> multiset(sorted[l]) == multiset(levels[l])
    ensures LevelsLabelled(levels) ==> LevelsLabelled(sorted)
  {
    sorted := levels;
    var remaining := levels.Keys;
    while remaining != {}
      invariant remaining <= levels.Keys && sorted.Keys == levels.Keys
      invariant forall l :: l in levels ==> multiset(sorted[l]) == multiset(levels[l])
      invariant forall l :: l in levels && l !in remaining ==> SortedBy(ByLowerBound, sorted[l])
      decreases |remaining|
    {
      assert exists l :: l in remaining by {
        if forall l :: l !in remaining {
          assert false;
        }
      }
      var l :| l in remaining;
      var r := Sort(ByLowerBound, levels[l]);
      sorted := sorted[l := r];
      remaining := remaining - {l};
    }
    if LevelsLabelled(levels) {
      forall l, f | l in sorted && f in sorted[l]
        ensures f.levelId == l
      {
        assert f in multiset(sorted[l]);
      }
    }
  }

  // ------------------------------------------------------------------
  // Reading a segment's index and values
  // ------------------------------------------------------------------

  /**
   * What LoadKeyOffset adds to key_offset: the items of the index section;
   * None where the header or an item does not parse inside the mapping.
   */
  function Loaded(file: Bytes, acc: KeyOffset): Option<KeyOffset> {
    if HasHeader(file) then ReadIndex(file, IndexStart(file), acc) else None
  }

  /** Reading one index item moves p past it, still inside the file, and records it. */
  lemma {:induction false} ReadIndexStep(file: Bytes, p: nat, acc: KeyOffset, it: IndexItem, next: nat)
    requires p < |file| && ItemAt(file[p..]) == Some(it) && next == p + it.end
    ensures next <= |file|
    ensures ReadIndex(file, p, acc) == ReadIndex(file, next, acc[it.key := it.offset])
  {
    var s := file[p..];
    assert s[it.end..] == file[next..];
  }

  /** The header reading of LoadKeyOffset: skip both bounds and read the index offset after them. */
  method ReadIndexOffset(file: Bytes) returns (ok: bool, p: nat)
    ensures ok <==> HasHeader(file)
    ensures ok ==> p == IndexStart(file)
  {
    p := 0;
    var len, size := GetVarint32(file, 5);
    LengthPrefixed(file, len, size);
    if len == -1 || len + size > |file| {
      return false, p;
    }
    var keyEnd := len + size;
    var rest := file[keyEnd..];
    len, size := GetVarint32(rest, 5);
    LengthPrefixed(rest, len, size);
    if len == -1 || len + size > |rest| || keyEnd + len + size + 4 > |file| {
      return false, p;
    }
    p := GetFixed32(file[keyEnd + len + size..]);
    ok := true;
  }

  /** One turn of LoadKeyOffset's loop: the key's length, the key, the varint offset. */
  method ReadItem(s: Bytes) returns (r: Option<IndexItem>)
    ensures r == ItemAt(s)
  {
    var len, size := GetVarint32(s, 5);
    LengthPrefixed(s, len, size);
    if len == -1 || len + size > |s| {
      return None;
    }
    var keyEnd := len + size;
    var key := s[len..keyEnd];
    var after := s[keyEnd..];
    var used, offset := GetVarint32(after, 5);
    if used == -1 {
      return None;
    }
    var end := keyEnd + used;
    ItemParts(s, keyEnd, end);
    return Some(IndexItem(key, offset, end));
  }

  /** The item at the start of s from its parts: the key, then the varint after it. */
  lemma ItemParts(s: Bytes, keyEnd: nat, end: nat)
    requires HasKey(s) && keyEnd == KeyEnd(s)
    requires var o := ParseVarint32(Window(s[keyEnd..], 5)); o.Some? && end == keyEnd + o.value.used
    ensures var o := ParseVarint32(Window(s[keyEnd..], 5)).value;
      ItemAt(s) == Some(IndexItem(ExtractUserKey(s), o.number, end))
  {
  }

  /** LoadKeyOffset's loop: read items while p is before the end of the file. */
  method ReadIndexItems(file: Bytes, start: nat, keyOffset: KeyOffset) returns (r: Option<KeyOffset>)
    ensures r == ReadIndex(file, start, keyOffset)
  {
    var p := start;
    var acc: KeyOffset := keyOffset;
    while p < |file|
      invariant ReadIndex(file, p, acc) == ReadIndex(file, start, keyOffset)
      decreases |file| - p
    {
      var item := ReadItem(file[p..]);
      if item.None? {
        return None;
      }
      var it := item.value;
      var next := p + it.end;
      ReadIndexStep(file, p, acc, it, next);
      acc, p := acc[it.key := it.offset], next;
    }
    return Some(acc);
  }

  /** LoadKeyOffset over a file's mapping: the header, then the items from the index offset to the file size. */
  method LoadIndex(file: Bytes, keyOffset: KeyOffset) returns (r: Option<KeyOffset>)
    ensures r == Loaded(file, keyOffset)
  {
    var ok, p := ReadIndexOffset(file);
    if !ok {
      return None;
    }
    r := ReadIndexItems(file, p, keyOffset);
  }

  /** GetValueByOffset: the value of the record at the offset; None where no record parses there. */
  function ValueAt(file: Bytes, offset: nat): Option<Bytes> {
    if offset <= |file| && IsRecord(file[offset..]) then Some(ExtractUserValue(file[offset..])) else None
  }

  /** GetValueByOffset over a mapping: skip the key, read the value's length and the value. */
  method ReadValue(file: Bytes, offset: uint32) returns (r: Option<Bytes>)
    ensures r == ValueAt(file, offset)
  {
    if offset > |file| {
      return None;
    }
    var s := file[offset..];
    var len, size := GetVarint32(s, 5);
    LengthPrefixed(s, len, size);
    if len == -1 || len + size > |s| {
      return None;
    }
    var rest := s[len + size..];
    len, size := GetVarint32(rest, 5);
    LengthPrefixed(rest, len, size);
    if len == -1 || len + size > |rest| {
      return None;
    }
    return Some(rest[len..len + size]);
  }

  /**
   * A file Flush wrote, read back: LoadKeyOffset from an empty map rebuilds
   * the key-offset map Flush returned, and GetValueByOffset at the offset of
   * each entry's key gives that entry's value.
   */
  lemma {:induction false} FlushedLookup(content: seq<Bytes>, order: seq<Bytes>, m: KeyOffset, i: nat)
    requires Flushable(content) && Writable(order, m) && Lists(order, m) && Small(content) && i < |content|
    requires m == Recorded(content, |Header(content)| + 4, map[])
    ensures var f := FlushedFile(content, order, m);
      && Loaded(f, map[]) == Some(m)
      && SkipListSpec.Keys(content)[i] in m
      && ValueAt(f, m[SkipListSpec.Keys(content)[i]]) == Some(SkipListSpec.UserValue(content[i]))
  {
    FlushedIndex(content, order, m);
    FlushedRecordAt(content, order, m, i);
  }

  // ------------------------------------------------------------------
  // Compaction
  // ------------------------------------------------------------------

  /** level_files_[l] read for its size: the level is there afterwards, empty if it was not. */
  function Touched(levels: map<int, seq<File>>, l: int): map<int, seq<File>> {
    levels[l := LevelOf(levels, l)]
  }

  /** Touching a level keeps the tables well formed and every level's files. */
  lemma {:induction false} TouchedKeeps(t: Tables, l: int)
    requires WellFormed(t)
    ensures WellFormed(Tables(Touched(t.levels, l), t.files))
    ensures forall m :: LevelOf(Touched(t.levels, l), m) == LevelOf(t.levels, m)
  {
  }

  /**
   * The file count above which Compact works on a level: the limit times
   * (int)pow(10, level), which is 0 for a negative level. A negative product
   * compared with the unsigned size never lets Compact work.
   */
  function Threshold(limit: int, level: int): (r: int)
    ensures level < 0 ==> r == 0
    ensures 0 <= level ==> (r < 0 <==> limit < 0) && (0 <= limit ==> limit <= r)
  {
    if level < 0 then 0 else limit * Pow10(level)
  }

  /** Compact leaves the level alone: the size comparison with the threshold. */
  predicate WithinLimit(levels: map<int, seq<File>>, limit: int, level: int): (r: bool)
    ensures LevelOf(levels, level) == [] ==> r
    ensures 0 <= level && limit < 0 ==> r
  {
    Threshold(limit, level) < 0 || |LevelOf(levels, level)| <= Threshold(limit, level)
  }

  /**
   * Compact's choice of files: the first file of the level; on level 0 the
   * run of files after it that FindOverlapFilesLevel0 takes (k ends it, upper
   * is the bound it reaches); then every file of the next level, if there is
   * one, that meets [lower bound of the first file, upper].
   */
  method CompactionInputs(levels: map<int, seq<File>>, level: int) returns (compact: seq<File>, ghost k: nat, ghost upper: Bytes)
    requires LevelOf(levels, level) != []
    ensures var cur := LevelOf(levels, level);
      && 1 <= k <= |cur| && (level != 0 ==> k == 1)
      && Chained(cur[0].upperBound, cur[1..k]) && upper == Reach(cur[0].upperBound, cur[1..k])
      && (level == 0 && k < |cur| ==> Less(upper, cur[k].lowerBound))
      && compact == cur[..k] + (if level + 1 in levels then Overlapping(levels[level + 1], cur[0].lowerBound, upper) else [])
  {
    var cur := LevelOf(levels, level);
    compact := [cur[0]];
    var lower, up := cur[0].lowerBound, cur[0].upperBound;
    k := 1;
    assert cur[1..1] == [];
    if level == 0 {
      compact, up, k := FindOverlapFilesLevel0(cur, compact, up);
    }
    assert compact == cur[..k] by {
      assert cur[..k] == [cur[0]] + cur[1..k];
    }
    upper := up;
    if level + 1 in levels {
      compact := FindOverlapFilesBasedOnBound(levels[level + 1], compact, lower, up);
    }
  }

  /** Every batch the merge cuts can be flushed: it is not empty and each of its entries has a key. */
  lemma {:induction false} BatchFlushable(batches: seq<seq<Bytes>>, bufferSize: uint32, i: nat)
    requires Merge.Cuts(batches, bufferSize) && i < |batches| && Merge.AllRecords(batches[i])
    ensures Bounded(batches[i]) && SkipListSpec.AllHaveKeys(batches[i])
  {
    var b := batches[i];
    assert b != [] by {
      if i < |batches| - 1 {
        assert Merge.Full(batches[i], bufferSize);
      }
    }
    assert IsRecord(b[0]) && IsRecord(b[|b| - 1]);
    forall j | 0 <= j < |b|
      ensures HasKey(b[j])
    {
      assert IsRecord(b[j]);
    }
  }

  /** Batch i can go to FlushCompactedFile, with its size in 32 bits as the size passed. */
  predicate BatchReady(batches: seq<seq<Bytes>>, sizes: seq<uint32>, i: nat) {
    i < |batches| && i < |sizes| && Bounded(batches[i]) && SkipListSpec.AllHaveKeys(batches[i]) && sizes[i] == Merge.Bytes32(batches[i])
  }

  /** stream is the segment Flush writes for batch from an empty key-offset map, given data size size. */
  predicate FlushOf(stream: Bytes, batch: seq<Bytes>, size: nat, order: seq<Bytes>) {
    && Bounded(batch)
    && var m := Recorded(batch, |Header(batch)| + 4, map[]);
    && Writable(order, m) && Lists(order, m)
    && stream == Segment(batch, size, order, m)
  }

  /** What StorageBuffer::Flush promises of a batch flushed with an empty key-offset map is FlushOf. */
  lemma FlushedOf(stream: Bytes, batch: seq<Bytes>, size: nat, order: seq<Bytes>, offsets: KeyOffset)
    requires Bounded(batch) && offsets == Recorded(batch, |Header(batch)| + 4, map[])
    requires Writable(order, offsets) && Lists(order, offsets) && stream == Segment(batch, size, order, offsets)
    ensures FlushOf(stream, batch, size, order)
  {
  }

  /** f is the File the constructor builds from a segment named name whose contents are stream. */
  predicate OpenedAs(f: File, name: string, stream: Bytes) {
    && ParseName(name) == Some((f.levelId, f.fileId))
    && f.fileName == name && f.mmap == Mapped(stream) && f.fileSize == |f.mmap|
    && IsRecord(f.mmap) && f.lowerBound == ExtractUserKey(f.mmap) && f.upperBound == ExtractUserValue(f.mmap)
  }

  /** A file opened from the folder is the file of the contents at its path. */
  lemma OpenedFrom(folder: string, disk: Disk, name: string)
    requires Opens(folder, disk, name)
    ensures OpenedAs(Opened(folder, disk, name), name, disk[FilePath(folder, name)])
  {
  }

  /**
   * The folder after NWayCompaction's flushes from a level: the i-th stream
   * written to the file of the next level named for id + i + 1.
   */
  function Written(disk: Disk, folder: string, level: int, id: int, streams: seq<Bytes>): Disk
    decreases |streams|
  {
    if streams == [] then disk
    else
      var n := |streams| - 1;
      Written(disk, folder, level, id, streams[..n])[FilePath(folder, FileName(level + 1, id + n + 1)) := streams[n]]
  }

  /** One more flush: the path named for the next id receives the new stream. */
  lemma {:induction false} WrittenSnoc(disk: Disk, folder: string, level: int, id: int, streams: seq<Bytes>, next: int, s: Bytes)
    requires next == id + |streams| + 1
    ensures Written(disk, folder, level, id, streams + [s]) == Written(disk, folder, level, id, streams)[FilePath(folder, FileName(level + 1, next)) := s]
  {
    assert (streams + [s])[..|streams|] == streams;
  }

  /**
   * The k-th file NWayCompaction produces from a level: the k-th batch
   * flushed, with its size, into the k-th stream, which opens as the file
   * of the next level named for id + k + 1.
   */
  predicate Output(fs: seq<File>, batches: seq<seq<Bytes>>, streams: seq<Bytes>, orders: seq<seq<Bytes>>, level: int, id: int, k: nat) {
    && k < |fs| && k < |batches| && k < |streams| && k < |orders|
    && FlushOf(streams[k], batches[k], Merge.Bytes32(batches[k]), orders[k])
    && OpenedAs(fs[k], FileName(level + 1, id + k + 1), streams[k])
  }

  /** The files, streams and orders of the first |fs| batches, each the output of its batch. */
  predicate Outputs(fs: seq<File>, batches: seq<seq<Bytes>>, streams: seq<Bytes>, orders: seq<seq<Bytes>>, level: int, id: int) {
    && |fs| == |streams| == |orders| <= |batches|
    && forall k :: 0 <= k < |fs| ==> Output(fs, batches, streams, orders, level, id, k)
  }

  /** One more file flushed and opened keeps every earlier output. */
  lemma {:induction false} OutputSnoc(fs: seq<File>, batches: seq<seq<Bytes>>, streams: seq<Bytes>, orders: seq<seq<Bytes>>,
                                      level: int, id: int, next: int, f: File, stream: Bytes, order: seq<Bytes>)
    requires Outputs(fs, batches, streams, orders, level, id) && |fs| < |batches|
    requires FlushOf(stream, batches[|fs|], Merge.Bytes32(batches[|fs|]), order)
    requires next == id + |fs| + 1 && OpenedAs(f, FileName(level + 1, next), stream)
    ensures Outputs(fs + [f], batches, streams + [stream], orders + [order], level, id)
  {
    forall k | 0 <= k < |fs| + 1
      ensures Output(fs + [f], batches, streams + [stream], orders + [order], level, id, k)
    {
      if k < |fs| {
        OutputKept(fs, batches, streams, orders, level, id, k, f, stream, order);
      } else {
        OutputLast(fs, batches, streams, orders, level, id, next, f, stream, order);
      }
    }
  }

  /** An earlier output stays one when a file is appended. */
  lemma {:induction false} OutputKept(fs: seq<File>, batches: seq<seq<Bytes>>, streams: seq<Bytes>, orders: seq<seq<Bytes>>,
                                      level: int, id: int, k: nat, f: File, stream: Bytes, order: seq<Bytes>)
    requires Output(fs, batches, streams, orders, level, id, k)
    ensures Output(fs + [f], batches, streams + [stream], orders + [order], level, id, k)
  {
    assert (fs + [f])[k] == fs[k] && (streams + [stream])[k] == streams[k] && (orders + [order])[k] == orders[k];
  }

  /** The appended file is the output of the next batch. */
  lemma {:induction false} OutputLast(fs: seq<File>, batches: seq<seq<Bytes>>, streams: seq<Bytes>, orders: seq<seq<Bytes>>,
                                      level: int, id: int, next: int, f: File, stream: Bytes, order: seq<Bytes>)
    requires |fs| == |streams| == |orders| < |batches|
    requires FlushOf(stream, batches[|fs|], Merge.Bytes32(batches[|fs|]), order)
    requires next == id + |fs| + 1 && OpenedAs(f, FileName(level + 1, next), stream)
    ensures Output(fs + [f], batches, streams + [stream], orders + [order], level, id, |fs|)
  {
    var k := |fs|;
    assert (fs + [f])[k] == f && (streams + [stream])[k] == stream && (orders + [order])[k] == order;
  }

  /**
   * A trivial move keeps the file's bytes: when the old path holds a segment
   * whose header parses and the new ids fit an int, the renamed file opens
   * one level down under the new id, with the same mapping and bounds.
   */
  lemma {:induction false} MoveOpens(folder: string, disk: Disk, f: File, id: int)
    requires FilePath(folder, f.fileName) in disk && IsRecord(Mapped(disk[FilePath(folder, f.fileName)]))
    requires -TWO31 <= f.levelId + 1 < TWO31 && -TWO31 <= id < TWO31
    ensures var name := FileName(f.levelId + 1, id);
      var from := FilePath(folder, f.fileName);
      var d := Renamed(disk, from, FilePath(folder, name));
      && Opens(folder, d, name)
      && Opened(folder, d, name).levelId == f.levelId + 1 && Opened(folder, d, name).fileId == id
      && Opened(folder, d, name).mmap == Mapped(disk[from])
      && Opened(folder, d, name).lowerBound == ExtractUserKey(Mapped(disk[from]))
      && Opened(folder, d, name).upperBound == ExtractUserValue(Mapped(disk[from]))
  {
    NameRoundTrip(f.levelId + 1, id);
  }

  /** AddFile's update of the tables: the file installed in its level and the map, and level 0 touched. */
  function AfterAdd(t: Tables, f: File): Tables {
    var u := Installed(t, f);
    Tables(Touched(u.levels, 0), u.files)
  }

  /** AddFile on the tables: open the named file, place it in its level and map its id. */
  method AddNamed(folder: string, disk: Disk, t: Tables, name: string) returns (ok: bool, u: Tables)
    requires WellFormed(t)
    ensures ok <==> Opens(folder, disk, name)
    ensures ok ==> u == AfterAdd(t, Opened(folder, disk, name))
    ensures !ok ==> u == t
    ensures WellFormed(u)
  {
    var r := OpenFile(folder, disk, name);
    if r.None? {
      return false, t;
    }
    var f := r.value;
    InstalledWellFormed(t, f);
    TouchedKeeps(Installed(t, f), 0);
    var level := Place(ByLowerBound, LevelOf(t.levels, f.levelId), f);
    var placed := t.levels[f.levelId := level];
    return true, Tables(placed[0 := LevelOf(placed, 0)], t.files[f.fileId := f]);
  }

  /**
   * What ContainsFiles has gathered once the levels outside remaining are
   * done: their ids in ascending order, each below every remaining one, each
   * with its scan sorted newest first.
   */
  ghost predicate Collected(levels: map<int, seq<File>>, key: Bytes, remaining: set<int>, lists: seq<seq<File>>, order: seq<int>) {
    && remaining <= levels.Keys
    && (forall l :: l in levels ==> (l in order <==> l !in remaining))
    && (forall i, j :: 0 <= i < j < |order| ==> order[i] < order[j])
    && (forall i, l :: 0 <= i < |order| && l in remaining ==> order[i] < l)
    && |lists| == |order|
    && (forall i :: 0 <= i < |order| ==> order[i] in levels && SortedBy(ByNewest, lists[i]))
    && (forall i :: 0 <= i < |order| ==> multiset(lists[i]) == multiset(Scanned(levels[order[i]], key)))
  }

  /** The level order part of CollectedStep: l moves from remaining to the end of order. */
  lemma OrderStep(levels: map<int, seq<File>>, remaining: set<int>, order: seq<int>, l: int)
    requires remaining <= levels.Keys && l in remaining && forall x :: x in remaining ==> l <= x
    requires forall m :: m in levels ==> (m in order <==> m !in remaining)
    requires forall i, j :: 0 <= i < j < |order| ==> order[i] < order[j]
    requires forall i, m :: 0 <= i < |order| && m in remaining ==> order[i] < m
    ensures forall m :: m in levels ==> (m in order + [l] <==> m !in remaining - {l})
    ensures forall i, j :: 0 <= i < j < |order + [l]| ==> (order + [l])[i] < (order + [l])[j]
    ensures forall i, m :: 0 <= i < |order + [l]| && m in remaining - {l} ==> (order + [l])[i] < m
  {
    var rest, order' := remaining - {l}, order + [l];
    forall m | m in levels
      ensures m in order' <==> m !in rest
    {
      assert m in order' <==> m in order || m == l;
    }
    forall i, j | 0 <= i < j < |order'|
      ensures order'[i] < order'[j]
    {
      if j == |order| {
        assert order'[i] == order[i];
      }
    }
    forall i, m | 0 <= i < |order'| && m in rest
      ensures order'[i] < m
    {
      if i < |order| {
        assert order'[i] == order[i];
      }
    }
  }

  /** Collecting the least remaining level keeps Collected. */
  lemma CollectedStep(levels: map<int, seq<File>>, key: Bytes, remaining: set<int>, lists: seq<seq<File>>, order: seq<int>, l: int, tmp: seq<File>)
    requires Collected(levels, key, remaining, lists, order)
    requires l in remaining && forall x :: x in remaining ==> l <= x
    requires SortedBy(ByNewest, tmp) && multiset(tmp) == multiset(Scanned(levels[l], key))
    ensures Collected(levels, key, remaining - {l}, lists + [tmp], order + [l])
  {
    var lists', order' := lists + [tmp], order + [l];
    OrderStep(levels, remaining, order, l);
    forall i | 0 <= i < |order'|
      ensures order'[i] in levels && SortedBy(ByNewest, lists'[i])
      ensures multiset(lists'[i]) == multiset(Scanned(levels[order'[i]], key))
    {
      if i < |order| {
        assert order'[i] == order[i] && lists'[i] == lists[i];
      }
    }
  }

  /**
   * GetContainsFiles over the level lists: for each level in ascending order
   * (order), the files the scan keeps, newest first.
   */
  method ContainsFiles(levels: map<int, seq<File>>, key: Bytes) returns (lists: seq<seq<File>>, ghost order: seq<int>)
    ensures |lists| == |order|
    ensures forall i, j :: 0 <= i < j < |order| ==> order[i] < order[j]
    ensures forall l :: l in levels <==> l in order
    ensures forall i :: 0 <= i < |order| ==> order[i] in levels && SortedBy(ByNewest, lists[i])
    ensures forall i :: 0 <= i < |order| ==> multiset(lists[i]) == multiset(Scanned(levels[order[i]], key))
    ensures LevelsSorted(levels) ==> forall i :: 0 <= i < |order| ==> multiset(lists[i]) == multiset(Covering(levels[order[i]], key))
  {
    lists, order := [], [];
    var remaining := levels.Keys;
    while remaining != {}
      invariant Collected(levels, key, remaining, lists, order)
      decreases |remaining|
    {
      ghost var least := Least(remaining);
      var l :| l in remaining && forall x :: x in remaining ==> l <= x;
      var tmp := ContainsFilesIn(levels[l], key);
      CollectedStep(levels, key, remaining, lists, order, l, tmp);
      lists, order := lists + [tmp], order + [l];
      remaining := remaining - {l};
    }
    if LevelsSorted(levels) {
      forall i | 0 <= i < |order|
        ensures multiset(lists[i]) == multiset(Covering(levels[order[i]], key))
      {
        var m := order[i];
        assert m in levels;
        assert SortedBy(ByLowerBound, levels[m]);
        ScannedCovering(levels[order[i]], key);
      }
    }
  }
}
