/**
 * db/storage_engine.h and the merge of db/storage_engine.cpp
 * (NWayCompaction, ExtractEntry): the entries compaction reads from its input
 * segments, the order of its priority queue, and what the merge keeps.
 *
 * The priority queue pops, among the head entries of the inputs, the one
 * the comparator ranks highest. Greedy below is that merge written over
 * the inputs themselves; the merge loop in MergeFiles is proved to pop
 * exactly Greedy's sequence. Survivors is what the loop keeps of it (the
 * first entry of each key unless it is a tombstone), and the batches cut
 * it wherever the 32-bit content size passes the buffer size.
 */
module Merge {
  import opened Wrappers
  import opened Coding
  import opened Utils
  import opened SkipListSpec
  import opened Segments
  import opened Files

  /** StorageEngine::Entry: one record of an input, with where it comes from. */
  datatype Entry = Entry(
    key: Bytes,
    levelId: int,
    fileId: int,
    index: int,
    isDelete: bool,
    record: Bytes,
    size: uint32)

  // ------------------------------------------------------------------
  // priority_queue_cmp
  // ------------------------------------------------------------------

  /**
   * priority_queue_cmp(a, b): b leaves the queue before a. Smaller keys
   * first; on a key tie the smaller level; on a level tie the larger file id.
   * So b leaves first only when a's key is not the smaller one, and between
   * equal keys only the level and then the file id decide.
   */
  predicate QueueCmp(a: Entry, b: Entry): (r: bool)
    ensures r ==> !Less(a.key, b.key)
    ensures !Less(a.key, b.key) && !Less(b.key, a.key) ==>
      (r <==> a.levelId > b.levelId || (a.levelId == b.levelId && a.fileId < b.fileId))
  {
    LessTrichotomy(a.key, b.key);
    || Less(b.key, a.key)
    || (a.key == b.key && (a.levelId > b.levelId || (a.levelId == b.levelId && a.fileId < b.fileId)))
  }

  /** a leaves the queue before b. */
  predicate Ahead(a: Entry, b: Entry) {
    QueueCmp(b, a)
  }

  /** a and b agree on everything the comparator looks at. */
  predicate Tied(a: Entry, b: Entry) {
    a.key == b.key && a.levelId == b.levelId && a.fileId == b.fileId
  }

  lemma {:induction false} QueueCmpIrreflexive(a: Entry)
    ensures !QueueCmp(a, a)
  {
    LessIrreflexive(a.key);
  }

  lemma {:induction false} QueueCmpTransitive(a: Entry, b: Entry, c: Entry)
    requires QueueCmp(a, b) && QueueCmp(b, c)
    ensures QueueCmp(a, c)
  {
    LessChain(c.key, b.key, a.key);
  }

  /**
   * Two entries are incomparable exactly when they are tied, so
   * incomparability is an equivalence and the comparator a strict weak order.
   */
  lemma {:induction false} QueueCmpIncomparable(a: Entry, b: Entry)
    ensures !QueueCmp(a, b) && !QueueCmp(b, a) <==> Tied(a, b)
    ensures !(QueueCmp(a, b) && QueueCmp(b, a))
  {
    LessTrichotomy(a.key, b.key);
    LessIrreflexive(a.key);
  }

  /** Not outranked is transitive too. */
  lemma {:induction false} QueueCmpNegTransitive(a: Entry, b: Entry, c: Entry)
    requires !QueueCmp(a, b) && !QueueCmp(b, c)
    ensures !QueueCmp(a, c)
  {
    if QueueCmp(a, c) {
      QueueCmpIncomparable(b, c);
      if QueueCmp(c, b) {
        QueueCmpTransitive(a, c, b);
      }
    }
  }

  /** For entries of one key: ahead means a smaller level, or the same level and a larger file id. */
  lemma {:induction false} AheadSameKey(a: Entry, b: Entry)
    requires a.key == b.key
    ensures Ahead(a, b) <==> a.levelId < b.levelId || (a.levelId == b.levelId && a.fileId > b.fileId)
  {
    LessIrreflexive(a.key);
  }

  /** Ahead never puts a larger key first. */
  lemma {:induction false} AheadKeys(a: Entry, b: Entry)
    requires Ahead(a, b)
    ensures !Less(b.key, a.key)
  {
    LessTrichotomy(a.key, b.key);
  }

  // ------------------------------------------------------------------
  // The top of the queue
  // ------------------------------------------------------------------

  /**
   * The position of what std::priority_queue::top returns: no element of
   * the queue outranks it (among tied elements, the first).
   */
  function TopIndex(q: seq<Entry>): (r: nat)
    requires q != []
    ensures r < |q| && forall y :: y in q ==> !QueueCmp(q[r], y)
    decreases |q|
  {
    if |q| == 1 then
      QueueCmpIrreflexive(q[0]);
      0
    else
      var j := 1 + TopIndex(q[1..]);
      assert forall y :: y in q[1..] ==> !QueueCmp(q[j], y);
      if QueueCmp(q[0], q[j]) then
        QueueCmpIncomparable(q[0], q[j]);
        j
      else
        QueueCmpIrreflexive(q[0]);
        TopBeats(q[0], q[j], q[1..]);
        0
  }

  lemma {:induction false} TopBeats(a: Entry, t: Entry, q: seq<Entry>)
    requires !QueueCmp(a, t) && forall y :: y in q ==> !QueueCmp(t, y)
    ensures forall y :: y in q ==> !QueueCmp(a, y)
  {
    forall y | y in q
      ensures !QueueCmp(a, y)
    {
      QueueCmpNegTransitive(a, t, y);
    }
  }

  /**
   * The top has the smallest key in the queue; among entries of that key
   * the smallest level; among those the largest file id.
   */
  lemma {:induction false} TopOrder(q: seq<Entry>)
    requires q != []
    ensures var t := q[TopIndex(q)];
      && (forall y :: y in q ==> !Less(y.key, t.key))
      && (forall y :: y in q && y.key == t.key ==> t.levelId <= y.levelId)
      && (forall y :: y in q && y.key == t.key && y.levelId == t.levelId ==> t.fileId >= y.fileId)
  {
  }

  // ------------------------------------------------------------------
  // The inputs and the merge they make
  // ------------------------------------------------------------------

  /** The entries still to come from each input. */
  type Sources = seq<seq<Entry>>

  function Total(s: Sources): nat {
    if s == [] then 0 else Total(s[..|s| - 1]) + |s[|s| - 1]|
  }

  function Bag(s: Sources): multiset<Entry> {
    if s == [] then multiset{} else Bag(s[..|s| - 1]) + multiset(s[|s| - 1])
  }

  lemma {:induction false} TotalUpdate(s: Sources, j: nat, x: seq<Entry>)
    requires j < |s|
    ensures Total(s[j := x]) == Total(s) - |s[j]| + |x|
    decreases |s|
  {
    var t := s[j := x];
    var n := |s| - 1;
    if j < n {
      TotalUpdate(s[..n], j, x);
      assert t[..n] == s[..n][j := x];
    } else {
      assert t[..n] == s[..n];
    }
  }

  lemma {:induction false} BagUpdate(s: Sources, j: nat, x: seq<Entry>)
    requires j < |s|
    ensures Bag(s[j := x]) == Bag(s) - multiset(s[j]) + multiset(x)
    ensures multiset(s[j]) <= Bag(s)
    decreases |s|
  {
    var t := s[j := x];
    var n := |s| - 1;
    if j < n {
      BagUpdate(s[..n], j, x);
      assert t[..n] == s[..n][j := x];
    } else {
      assert t[..n] == s[..n];
    }
  }

  lemma {:induction false} BagMember(s: Sources, e: Entry) returns (i: nat, k: nat)
    requires e in Bag(s)
    ensures i < |s| && k < |s[i]| && s[i][k] == e
    decreases |s|
  {
    var n := |s| - 1;
    if e in multiset(s[n]) {
      i := n;
      k :| 0 <= k < |s[n]| && s[n][k] == e;
    } else {
      i, k := BagMember(s[..n], e);
    }
  }

  lemma {:induction false} EmptySources(s: Sources)
    requires forall i :: 0 <= i < |s| ==> s[i] == []
    ensures Total(s) == 0 && Bag(s) == multiset{}
    decreases |s|
  {
    if s != [] {
      EmptySources(s[..|s| - 1]);
    }
  }

  /**
   * The input whose head leaves the queue first, among the first n inputs;
   * on a tie the first such input. None when those inputs are all used up.
   */
  function BestIn(s: Sources, n: nat): (r: Option<nat>)
    requires n <= |s|
    ensures r.Some? ==> r.value < n && s[r.value] != []
    ensures r.Some? ==> forall i :: 0 <= i < n && s[i] != [] ==> !QueueCmp(s[r.value][0], s[i][0])
    ensures r.None? ==> forall i :: 0 <= i < n ==> s[i] == []
  {
    if n == 0 then None
    else
      var r := BestIn(s, n - 1);
      if s[n - 1] == [] then r
      else if r.None? then
        QueueCmpIrreflexive(s[n - 1][0]);
        Some(n - 1)
      else if QueueCmp(s[r.value][0], s[n - 1][0]) then
        QueueCmpIncomparable(s[r.value][0], s[n - 1][0]);
        BestAfter(s, n, r.value);
        Some(n - 1)
      else
        r
  }

  lemma {:induction false} BestAfter(s: Sources, n: nat, b: nat)
    requires 0 < n <= |s| && b < n - 1 && s[b] != [] && s[n - 1] != []
    requires forall i :: 0 <= i < n - 1 && s[i] != [] ==> !QueueCmp(s[b][0], s[i][0])
    requires !QueueCmp(s[n - 1][0], s[b][0])
    ensures forall i :: 0 <= i < n && s[i] != [] ==> !QueueCmp(s[n - 1][0], s[i][0])
  {
    QueueCmpIrreflexive(s[n - 1][0]);
    forall i | 0 <= i < n - 1 && s[i] != []
      ensures !QueueCmp(s[n - 1][0], s[i][0])
    {
      QueueCmpNegTransitive(s[n - 1][0], s[b][0], s[i][0]);
    }
  }

  /** What is left when input j's head has been taken. */
  function Advance(s: Sources, j: nat): Sources
    requires j < |s| && s[j] != []
  {
    s[j := s[j][1..]]
  }

  /**
   * The k-way merge: repeatedly take the head that leaves the queue first.
   * The queue of NWayCompaction holds exactly one head per unfinished input,
   * so this is the order in which it pops.
   */
  function Greedy(s: Sources): seq<Entry>
    decreases Total(s)
  {
    match BestIn(s, |s|)
    case None => []
    case Some(j) =>
      TotalUpdate(s, j, s[j][1..]);
      [s[j][0]] + Greedy(Advance(s, j))
  }

  lemma {:induction false} GreedyCons(s: Sources, j: nat)
    requires BestIn(s, |s|) == Some(j)
    ensures Total(Advance(s, j)) < Total(s)
    ensures Greedy(s) == [s[j][0]] + Greedy(Advance(s, j))
  {
    TotalUpdate(s, j, s[j][1..]);
  }

  /** The merge pops one entry per entry of the inputs. */
  lemma {:induction false} GreedyLength(s: Sources)
    ensures |Greedy(s)| == Total(s)
    decreases Total(s)
  {
    match BestIn(s, |s|)
    case None =>
      EmptySources(s);
    case Some(j) =>
      GreedyCons(s, j);
      GreedyLength(Advance(s, j));
      TotalUpdate(s, j, s[j][1..]);
  }

  /** The first entry popped is a head that no other input's head leaves the queue before. */
  lemma {:induction false} GreedyFirst(s: Sources)
    ensures Greedy(s) != [] ==> forall i :: 0 <= i < |s| && s[i] != [] ==> !QueueCmp(Greedy(s)[0], s[i][0])
  {
    match BestIn(s, |s|)
    case None =>
    case Some(j) =>
      GreedyCons(s, j);
  }

  /** The merge takes every entry of every input once. */
  lemma {:induction false} GreedyBag(s: Sources)
    ensures multiset(Greedy(s)) == Bag(s)
    decreases Total(s)
  {
    match BestIn(s, |s|)
    case None =>
      EmptySources(s);
    case Some(j) =>
      var h, t := s[j][0], Advance(s, j);
      GreedyCons(s, j);
      GreedyBag(t);
      BagUpdate(s, j, s[j][1..]);
      BagSplit(Bag(s), s[j], Bag(t));
  }

  lemma {:induction false} BagSplit(b: multiset<Entry>, x: seq<Entry>, c: multiset<Entry>)
    requires x != [] && multiset(x) <= b && c == b - multiset(x) + multiset(x[1..])
    ensures multiset{x[0]} + c == b
  {
    assert x == [x[0]] + x[1..];
    assert multiset(x) == multiset{x[0]} + multiset(x[1..]);
  }

  /** Every entry of input i is tagged with the input's file id and with i. */
  predicate Sourced(s: Sources, ids: seq<int>) {
    && |s| == |ids|
    && forall i, k :: 0 <= i < |s| && 0 <= k < |s[i]| ==> s[i][k].fileId == ids[i] && s[i][k].index == i
  }

  predicate Distinct(ids: seq<int>) {
    forall a, b :: 0 <= a < b < |ids| ==> ids[a] != ids[b]
  }

  /** Strictly ascending keys, as Flush writes a segment. */
  predicate KeysAscending(es: seq<Entry>) {
    forall a, b :: 0 <= a < b < |es| ==> Less(es[a].key, es[b].key)
  }

  predicate AllAscending(s: Sources) {
    forall i :: 0 <= i < |s| ==> KeysAscending(s[i])
  }

  /** In pop order: each entry leaves the queue before every later one. */
  predicate Ascending(es: seq<Entry>) {
    forall a, b :: 0 <= a < b < |es| ==> Ahead(es[a], es[b])
  }

  lemma {:induction false} SourcedAdvance(s: Sources, ids: seq<int>, j: nat)
    requires Sourced(s, ids) && j < |s| && s[j] != []
    ensures Sourced(Advance(s, j), ids)
  {
    var t := Advance(s, j);
    assert forall k :: 0 <= k < |t[j]| ==> t[j][k] == s[j][k + 1];
  }

  lemma {:induction false} AscendingAdvance(s: Sources, j: nat)
    requires AllAscending(s) && j < |s| && s[j] != []
    ensures AllAscending(Advance(s, j))
  {
    var t := Advance(s, j);
    assert forall k :: 0 <= k < |t[j]| ==> t[j][k] == s[j][k + 1];
  }

  /** Every entry left once the best head is taken comes after that head. */
  lemma {:induction false} HeadFirst(s: Sources, ids: seq<int>, j: nat, e: Entry)
    requires Sourced(s, ids) && Distinct(ids) && AllAscending(s)
    requires BestIn(s, |s|) == Some(j) && e in Bag(Advance(s, j))
    ensures Ahead(s[j][0], e)
  {
    var t := Advance(s, j);
    var i, k := BagMember(t, e);
    var h := s[j][0];
    if i == j {
      assert e == s[j][k + 1];
    } else {
      var g := s[i][0];
      assert !QueueCmp(h, g);
      QueueCmpIncomparable(h, g);
      assert g.fileId == ids[i] && h.fileId == ids[j];
      if k > 0 {
        assert Less(g.key, e.key);
        QueueCmpTransitive(e, g, h);
      }
    }
  }

  /** From inputs with ascending keys and distinct files, the merge comes out in pop order. */
  lemma {:induction false} GreedyAscending(s: Sources, ids: seq<int>)
    requires Sourced(s, ids) && Distinct(ids) && AllAscending(s)
    ensures Ascending(Greedy(s))
    decreases Total(s)
  {
    match BestIn(s, |s|)
    case None =>
    case Some(j) =>
      var t := Advance(s, j);
      GreedyCons(s, j);
      SourcedAdvance(s, ids, j);
      AscendingAdvance(s, j);
      GreedyAscending(t, ids);
      HeadBeforeRest(s, ids, j);
      AscendingCons(s[j][0], Greedy(t));
  }

  /** The best head comes before everything the merge pops after it. */
  lemma {:induction false} HeadBeforeRest(s: Sources, ids: seq<int>, j: nat)
    requires Sourced(s, ids) && Distinct(ids) && AllAscending(s)
    requires BestIn(s, |s|) == Some(j)
    ensures forall e :: e in Greedy(Advance(s, j)) ==> Ahead(s[j][0], e)
  {
    var t := Advance(s, j);
    GreedyBag(t);
    forall e | e in Greedy(t)
      ensures Ahead(s[j][0], e)
    {
      assert e in multiset(Greedy(t));
      HeadFirst(s, ids, j, e);
    }
  }

  /** An entry ahead of every entry of an ascending sequence starts an ascending sequence. */
  lemma {:induction false} AscendingCons(h: Entry, g: seq<Entry>)
    requires Ascending(g) && forall e :: e in g ==> Ahead(h, e)
    ensures Ascending([h] + g)
  {
    var out := [h] + g;
    forall a, b | 0 <= a < b < |out|
      ensures Ahead(out[a], out[b])
    {
      if a > 0 {
        assert out[a] == g[a - 1] && out[b] == g[b - 1];
      } else {
        assert out[b] in g;
      }
    }
  }

  // ------------------------------------------------------------------
  // What the merge keeps
  // ------------------------------------------------------------------

  /** The i-th popped entry is the first of its key: prev differs or nothing was popped before. */
  predicate Leads(out: seq<Entry>, i: nat)
    requires i < |out|
  {
    i == 0 || out[i].key != out[i - 1].key
  }

  /** The entries the loop copies into content, in pop order. */
  function Survivors(out: seq<Entry>): seq<Entry> {
    if out == [] then []
    else
      var n := |out| - 1;
      if Leads(out, n) && !out[n].isDelete then Survivors(out[..n]) + [out[n]]
      else Survivors(out[..n])
  }

  /** A survivor is a popped entry that leads its key and is not a tombstone. */
  lemma {:induction false} SurvivorSource(out: seq<Entry>, e: Entry) returns (i: nat)
    requires e in Survivors(out)
    ensures i < |out| && out[i] == e && Leads(out, i) && !e.isDelete
    decreases |out|
  {
    var n := |out| - 1;
    var p := out[..n];
    if e in Survivors(p) {
      i := SurvivorSource(p, e);
      assert p[i] == out[i];
      assert i > 0 ==> p[i - 1] == out[i - 1];
    } else {
      i := n;
    }
  }

  /** Every popped entry that leads its key and is not a tombstone survives. */
  lemma {:induction false} SurvivorKept(out: seq<Entry>, i: nat)
    requires i < |out| && Leads(out, i) && !out[i].isDelete
    ensures out[i] in Survivors(out)
    decreases |out|
  {
    var n := |out| - 1;
    if i < n {
      var p := out[..n];
      assert p[i] == out[i];
      assert i > 0 ==> p[i - 1] == out[i - 1];
      SurvivorKept(p, i);
    }
  }

  /** In pop order, keys never go down. */
  lemma {:induction false} AscendingKeys(out: seq<Entry>, a: nat, b: nat)
    requires Ascending(out) && a <= b < |out|
    ensures !Less(out[b].key, out[a].key)
  {
    if a < b {
      AheadKeys(out[a], out[b]);
    } else {
      LessIrreflexive(out[a].key);
    }
  }

  /** Between two entries of one key in pop order, every entry has that key. */
  lemma {:induction false} SameKeyBetween(out: seq<Entry>, a: nat, b: nat)
    requires Ascending(out) && a < b < |out| && out[a].key == out[b].key
    ensures out[b - 1].key == out[b].key
  {
    AscendingKeys(out, a, b - 1);
    AscendingKeys(out, b - 1, b);
    LessTrichotomy(out[b - 1].key, out[b].key);
  }

  /** The kept keys are strictly ascending. */
  lemma {:induction false} SurvivorsAscending(out: seq<Entry>)
    requires Ascending(out)
    ensures KeysAscending(Survivors(out))
    decreases |out|
  {
    if out != [] {
      var n := |out| - 1;
      var p := out[..n];
      assert Ascending(p);
      SurvivorsAscending(p);
      if Leads(out, n) && !out[n].isDelete {
        SurvivorsBelow(out, n);
        KeysAscendingSnoc(Survivors(p), out[n]);
      }
    }
  }

  /** Every survivor before the last entry has a smaller key than the last entry, when that one leads its key. */
  lemma SurvivorsBelow(out: seq<Entry>, n: nat)
    requires Ascending(out) && n == |out| - 1 && Leads(out, n)
    ensures forall e :: e in Survivors(out[..n]) ==> Less(e.key, out[n].key)
  {
    var p := out[..n];
    forall e | e in Survivors(p)
      ensures Less(e.key, out[n].key)
    {
      var i := SurvivorSource(p, e);
      assert out[i] == e;
      AscendingKeys(out, i, n);
      LessTrichotomy(e.key, out[n].key);
      if e.key == out[n].key {
        SameKeyBetween(out, i, n);
      }
    }
  }

  /** Appending a key above every key keeps the keys strictly ascending. */
  lemma KeysAscendingSnoc(es: seq<Entry>, x: Entry)
    requires KeysAscending(es) && forall e :: e in es ==> Less(e.key, x.key)
    ensures KeysAscending(es + [x])
  {
    var sv := es + [x];
    forall a, b | 0 <= a < b < |sv|
      ensures Less(sv[a].key, sv[b].key)
    {
      if b == |es| {
        assert sv[a] in es;
      }
    }
  }

  /** No entry of the inputs with the same key leaves the queue before e. */
  predicate Newest(m: multiset<Entry>, e: Entry) {
    forall y :: y in m && y.key == e.key ==> y == e || Ahead(e, y)
  }

  /**
   * What compaction keeps of its inputs, when each lists its keys in
   * ascending order and the inputs are distinct files: the kept entries come
   * in strictly ascending key order, and an entry is kept exactly when it is
   * not a tombstone and no entry of its key from a lower level, or from a
   * newer file of its level, exists.
   */
  lemma {:induction false} MergeKeeps(s: Sources, ids: seq<int>)
    requires Sourced(s, ids) && Distinct(ids) && AllAscending(s)
    ensures KeysAscending(Survivors(Greedy(s)))
    ensures forall e :: e in Survivors(Greedy(s)) <==> e in Bag(s) && !e.isDelete && Newest(Bag(s), e)
  {
    var out := Greedy(s);
    GreedyAscending(s, ids);
    GreedyBag(s);
    SurvivorsAscending(out);
    forall e
      ensures e in Survivors(out) <==> e in Bag(s) && !e.isDelete && Newest(Bag(s), e)
    {
      if e in Survivors(out) {
        var i := SurvivorSource(out, e);
        KeptIsNewest(out, i);
        assert out[i] in multiset(out);
      }
      if e in Bag(s) && !e.isDelete && Newest(Bag(s), e) {
        assert e in multiset(out);
        var i :| 0 <= i < |out| && out[i] == e;
        NewestLeads(out, i);
        SurvivorKept(out, i);
      }
    }
  }

  lemma {:induction false} KeptIsNewest(out: seq<Entry>, i: nat)
    requires Ascending(out) && i < |out| && Leads(out, i)
    ensures Newest(multiset(out), out[i])
  {
    forall y | y in multiset(out) && y.key == out[i].key
      ensures y == out[i] || Ahead(out[i], y)
    {
      var k :| 0 <= k < |out| && out[k] == y;
      if k < i {
        SameKeyBetween(out, k, i);
      }
    }
  }

  lemma {:induction false} NewestLeads(out: seq<Entry>, i: nat)
    requires Ascending(out) && i < |out| && Newest(multiset(out), out[i])
    ensures Leads(out, i)
  {
    if i > 0 && out[i - 1].key == out[i].key {
      var x, y := out[i - 1], out[i];
      assert x in multiset(out);
      QueueCmpIrreflexive(y);
      QueueCmpIncomparable(x, y);
    }
  }

  // ------------------------------------------------------------------
  // Output batches
  // ------------------------------------------------------------------

  function EntryRecords(es: seq<Entry>): (rs: seq<Bytes>)
    ensures |rs| == |es|
  {
    if es == [] then [] else EntryRecords(es[..|es| - 1]) + [es[|es| - 1].record]
  }

  /** The batches laid end to end. */
  function Joined(bs: seq<seq<Bytes>>): seq<Bytes> {
    if bs == [] then [] else Joined(bs[..|bs| - 1]) + bs[|bs| - 1]
  }

  /** content_size after pushing the records of rs from 0: their sizes summed in 32 bits. */
  function Bytes32(rs: seq<Bytes>): uint32 {
    if rs == [] then 0 else (Bytes32(rs[..|rs| - 1]) + |rs[|rs| - 1]| % TWO32) % TWO32
  }

  /** No nonempty prefix takes content_size past the buffer size. */
  predicate Filling(b: seq<Bytes>, bufferSize: uint32) {
    b == [] || (Filling(b[..|b| - 1], bufferSize) && Bytes32(b) <= bufferSize)
  }

  lemma {:induction false} FillingPrefixes(b: seq<Bytes>, bufferSize: uint32)
    ensures Filling(b, bufferSize) <==> forall k :: 1 <= k <= |b| ==> Bytes32(b[..k]) <= bufferSize
    decreases |b|
  {
    if b != [] {
      var n := |b| - 1;
      var c := b[..n];
      FillingPrefixes(c, bufferSize);
      assert forall k :: 1 <= k <= n ==> b[..k] == c[..k];
      assert b[..|b|] == b;
    }
  }

  /** A batch cut by the loop: its last record, and no earlier one, took content_size past the buffer size. */
  predicate Full(b: seq<Bytes>, bufferSize: uint32) {
    b != [] && Filling(b[..|b| - 1], bufferSize) && Bytes32(b) > bufferSize
  }

  /**
   * How the loop cuts its output: every batch but the last is full; the
   * last is full or is what remained, never empty and never past the size.
   */
  predicate Cuts(bs: seq<seq<Bytes>>, bufferSize: uint32) {
    && (forall i :: 0 <= i < |bs| - 1 ==> Full(bs[i], bufferSize))
    && (bs != [] ==> Full(bs[|bs| - 1], bufferSize) || (bs[|bs| - 1] != [] && Filling(bs[|bs| - 1], bufferSize)))
  }

  lemma {:induction false} Bytes32Snoc(rs: seq<Bytes>, r: Bytes, before: uint32, len: uint32, total: uint32)
    requires before == Bytes32(rs) && len == |r| % TWO32 && total == (before + len) % TWO32
    ensures Bytes32(rs + [r]) == total
  {
    assert (rs + [r])[..|rs|] == rs;
  }

  lemma {:induction false} AllRecordsSnoc(c: seq<Bytes>, r: Bytes)
    requires AllRecords(c) && IsRecord(r)
    ensures AllRecords(c + [r])
  {
    forall k | 0 <= k < |c| + 1
      ensures IsRecord((c + [r])[k])
    {
      if k < |c| {
        assert (c + [r])[k] == c[k];
      }
    }
  }

  lemma {:induction false} AppendAssoc<T>(a: seq<T>, b: seq<T>, c: seq<T>)
    ensures a + (b + c) == (a + b) + c
  {
  }

  lemma {:induction false} EntryRecordsSnoc(es: seq<Entry>, e: Entry)
    ensures EntryRecords(es + [e]) == EntryRecords(es) + [e.record]
  {
    assert (es + [e])[..|es|] == es;
  }

  lemma {:induction false} JoinedSnoc(bs: seq<seq<Bytes>>, c: seq<Bytes>)
    ensures Joined(bs + [c]) == Joined(bs) + c
  {
    assert (bs + [c])[..|bs|] == bs;
  }

  /** The entry popped after out survives exactly when it leads its key and is not a tombstone. */
  lemma {:induction false} SurvivorsSnoc(out: seq<Entry>, e: Entry)
    ensures Survivors(out + [e]) ==
      if (out == [] || e.key != out[|out| - 1].key) && !e.isDelete then Survivors(out) + [e] else Survivors(out)
  {
    assert (out + [e])[..|out|] == out;
  }

  /** Pushing a record that keeps content_size within the buffer size keeps the content filling. */
  lemma {:induction false} FillingSnoc(c: seq<Bytes>, r: Bytes, bufferSize: uint32)
    requires Filling(c, bufferSize) && Bytes32(c + [r]) <= bufferSize
    ensures Filling(c + [r], bufferSize)
  {
    assert (c + [r])[..|c|] == c;
  }

  lemma {:induction false} FullSnoc(c: seq<Bytes>, r: Bytes, bufferSize: uint32)
    requires Filling(c, bufferSize) && Bytes32(c + [r]) > bufferSize
    ensures Full(c + [r], bufferSize)
  {
    assert (c + [r])[..|c|] == c;
  }

  // ------------------------------------------------------------------
  // Reading the inputs
  // ------------------------------------------------------------------

  /** The length prefix of a key reads the same from any prefix that holds the whole key. */
  lemma {:induction false} PrefixLength(s: Bytes, m: nat)
    requires HasKey(s) && KeyEnd(s) <= m <= |s|
    ensures ParseVarint32(Window(s[..m], 5)) == ParseVarint32(Window(s, 5))
  {
    var w, w' := Window(s, 5), Window(s[..m], 5);
    var u := Groups(w, 5).value.used;
    assert u <= KeyEnd(s) <= m;
    assert w'[..u] == w[..u] by {
      forall i | 0 <= i < u
        ensures w'[i] == w[i]
      {
        assert w'[i] == s[..m][i] == s[i] == w[i];
      }
    }
    assert w[..u] + w'[u..] == w';
    GroupsPrefix(w, 5, w'[u..]);
  }

  /** Reading a prefix that holds the whole length-prefixed key gives the same key. */
  lemma {:induction false} HasKeyPrefix(s: Bytes, m: nat)
    requires HasKey(s) && KeyEnd(s) <= m <= |s|
    ensures HasKey(s[..m]) && KeyEnd(s[..m]) == KeyEnd(s) && ExtractUserKey(s[..m]) == ExtractUserKey(s)
  {
    PrefixLength(s, m);
    var h := ParseVarint32(Window(s, 5)).value;
    assert s[..m][h.used..h.used + h.number] == s[h.used..h.used + h.number];
  }

  /** A record cut out of the bytes it starts is the same record. */
  lemma {:induction false} RecordPrefix(s: Bytes)
    requires IsRecord(s)
    ensures var r := s[..RecordSize(s)];
      && IsRecord(r) && RecordSize(r) == |r| == RecordSize(s)
      && ExtractUserKey(r) == ExtractUserKey(s) && ExtractUserValue(r) == ExtractUserValue(s)
  {
    var n, a := RecordSize(s), KeyEnd(s);
    var r, t := s[..n], s[a..];
    HasKeyPrefix(s, n);
    assert r[a..] == t[..n - a];
    HasKeyPrefix(t, n - a);
  }

  /** What follows the head of a sequence of entries. */
  function Tail(r: seq<Entry>): seq<Entry> {
    if r == [] then [] else r[1..]
  }

  /** The entry ExtractEntry builds for record r of input i (file f). */
  function EntryOf(r: Bytes, f: File, i: int, tomb: Bytes): Entry {
    Entry(UserKey(r), f.levelId, f.fileId, i, UserValue(r) == tomb, r, |r| % TWO32)
  }

  function Entries(rs: seq<Bytes>, f: File, i: int, tomb: Bytes): (es: seq<Entry>)
    ensures |es| == |rs| && forall k :: 0 <= k < |rs| ==> es[k] == EntryOf(rs[k], f, i, tomb)
  {
    seq(|rs|, k requires 0 <= k < |rs| => EntryOf(rs[k], f, i, tomb))
  }

  /** The entries of input i: the records between its header and its index; None where they do not parse. */
  function Stream(f: File, i: int, tomb: Bytes): Option<seq<Entry>> {
    if !HasHeader(f.mmap) then None
    else
      match EntriesFrom(f.mmap, RecordSize(f.mmap) + 4, IndexStart(f.mmap))
      case None => None
      case Some(rs) => Some(Entries(rs, f, i, tomb))
  }

  /** Every input's entries parse; elsewhere ExtractEntry reads past what was written. */
  predicate Readable(files: seq<File>, tomb: Bytes) {
    forall i :: 0 <= i < |files| ==> Stream(files[i], i, tomb).Some?
  }

  /** Every mapping is under 4 GiB, as the 32-bit file size makes it. */
  predicate Mapped32(files: seq<File>) {
    forall i :: 0 <= i < |files| ==> |files[i].mmap| < TWO32
  }

  function Streams(files: seq<File>, tomb: Bytes): (s: Sources)
    requires Readable(files, tomb)
    ensures |s| == |files|
  {
    seq(|files|, i requires 0 <= i < |files| => Stream(files[i], i, tomb).value)
  }

  function FileIds(files: seq<File>): (ids: seq<int>)
    ensures |ids| == |files| && forall i :: 0 <= i < |files| ==> ids[i] == files[i].fileId
  {
    seq(|files|, i requires 0 <= i < |files| => files[i].fileId)
  }

  predicate AllRecords(rs: seq<Bytes>) {
    forall k {:trigger IsRecord(rs[k])} :: 0 <= k < |rs| ==> IsRecord(rs[k])
  }

  lemma {:induction false} StreamsTagged(files: seq<File>, tomb: Bytes)
    requires Readable(files, tomb)
    ensures Sourced(Streams(files, tomb), FileIds(files))
  {
  }

  /** Reading on from position p: the record there, then the rest. */
  lemma {:induction false} RecordsStep(s: Bytes, len: int) returns (n: nat, t: Bytes, rest: int, more: seq<Bytes>)
    requires len > 0 && RecordsIn(s, len).Some?
    ensures IsRecord(s) && n == RecordSize(s) && t == s[n..] && rest == len - n
    ensures RecordsIn(t, rest) == Some(more)
    ensures RecordsIn(s, len) == Some([s[..n]] + more)
  {
    n := RecordSize(s);
    t, rest := s[n..], len - n;
    more := RecordsIn(t, rest).value;
  }

  /** Before the index offset, EntriesFrom reads the records of the rest of the file. */
  lemma EntriesOpen(d: Bytes, p: nat, end: nat) returns (s: Bytes, len: int)
    requires p < end && EntriesFrom(d, p, end).Some?
    ensures p <= |d| && s == d[p..] && len == end - p && EntriesFrom(d, p, end) == RecordsIn(s, len)
  {
    s, len := d[p..], end - p;
  }

  lemma {:induction false} EntriesStep(d: Bytes, p: nat, end: nat) returns (q: nat, more: seq<Bytes>)
    requires p < end && EntriesFrom(d, p, end).Some?
    ensures p <= |d| && IsRecord(d[p..]) && q == p + RecordSize(d[p..]) <= |d|
    ensures EntriesFrom(d, q, end) == Some(more)
    ensures EntriesFrom(d, p, end) == Some([d[p..q]] + more)
  {
    var s, len := EntriesOpen(d, p, end);
    var n, t, rest;
    n, t, rest, more := RecordsStep(s, len);
    q := p + n;
    assert EntriesFrom(d, q, end) == Some(more) by {
      SliceShift(d, p, n);
      EntriesAt(d, q, end, t, rest, more);
    }
    assert d[p..q] == s[..n] by {
      SliceShift(d, p, n);
    }
  }

  /** Slicing a suffix of d again is slicing d. */
  lemma SliceShift(d: Bytes, p: nat, n: nat)
    requires p + n <= |d|
    ensures d[p..][n..] == d[p + n..] && d[p..][..n] == d[p..p + n]
  {
  }

  /** The two length-prefixed fields GetVarint32 finds at the start of a record. */
  lemma {:induction false} RecordFields(s: Bytes, l1: int, z1: uint32, t: Bytes, l2: int, z2: uint32) returns (r: Bytes)
    requires IsRecord(s)
    requires HasKey(s) && 0 <= l1 && KeyEnd(s) == l1 + z1 && ExtractUserKey(s) == s[l1..l1 + z1]
    requires t == s[l1 + z1..]
    requires l2 == -1 <==> ParseVarint32(Window(t, 5)).None?
    requires l2 != -1 ==> l2 == ParseVarint32(Window(t, 5)).value.used
    requires l2 != -1 ==> z2 == ParseVarint32(Window(t, 5)).value.number
    ensures 0 <= l2 && l2 + z2 <= |t| && l1 + z1 + l2 + z2 == RecordSize(s)
    ensures r == s[..RecordSize(s)] && |r| == RecordSize(s) && IsRecord(r)
    ensures UserKey(r) == s[l1..l1 + z1] && UserValue(r) == t[l2..l2 + z2]
  {
    var k := KeyEnd(s);
    assert t == s[k..];
    LengthPrefixed(t, l2, z2);
    assert HasKey(t) && KeyEnd(t) == l2 + z2;
    var n := RecordSize(s);
    assert n == k + KeyEnd(t);
    RecordPrefix(s);
    r := s[..n];
    assert UserKey(r) == ExtractUserKey(s);
    assert UserValue(r) == ExtractUserKey(t);
  }

  /** ExtractEntry: the record at p, its key, whether its value is the tombstone, and where the next record starts. */
  method ExtractEntry(data: Bytes, p: nat, file: File, index: int, tomb: Bytes) returns (e: Entry, q: nat)
    requires p <= |data| < TWO32 && IsRecord(data[p..])
    ensures q == p + RecordSize(data[p..]) <= |data|
    ensures e == EntryOf(data[p..q], file, index, tomb) && IsRecord(e.record)
  {
    var s := data[p..];
    var length, size := GetVarint32(s, 5);
    LengthPrefixed(s, length, size);
    var key := s[length..length + size];
    var keyLen := length + size;
    Below32(keyLen);
    var totalLen: uint32 := keyLen % TWO32;
    var t := s[length + size..];
    var length2, size2 := GetVarint32(t, 5);
    ghost var r := RecordFields(s, length, size, t, length2, size2);
    var n := length + size + length2 + size2;
    var sum := totalLen + length2 + size2;
    assert sum == n <= |s|;
    Below32(sum);
    totalLen := sum % TWO32;
    var isDelete := false;
    if size2 == |tomb| {
      var value := t[length2..length2 + size2];
      if value == tomb {
        isDelete := true;
      }
    }
    assert isDelete == (UserValue(r) == tomb);
    q := p + n;
    assert data[p..q] == r && s[..n] == r;
    assert key == UserKey(r);
    e := Entry(key, file.levelId, file.fileId, index, isDelete, s[..n], totalLen);
  }

  // ------------------------------------------------------------------
  // Emitting the survivors
  // ------------------------------------------------------------------

  /**
   * The output side of the merge loop: has_initial, prev, content and
   * content_size, with the batches FlushCompactedFile was given so far and
   * the content_size passed with each.
   */
  datatype Batching = Batching(hasInitial: bool, prev: Bytes, content: seq<Bytes>, contentSize: uint32,
                               batches: seq<seq<Bytes>>, sizes: seq<uint32>)

  /** The batches and the open content hold the records of the survivors of out, cut where the size went past the buffer size. */
  predicate Emitted(b: Batching, out: seq<Entry>, bufferSize: uint32) {
    && (b.hasInitial <==> out != [])
    && (out != [] ==> b.prev == out[|out| - 1].key)
    && Joined(b.batches) + b.content == EntryRecords(Survivors(out))
    && Open(b.content, b.contentSize, bufferSize)
    && Closed(b.batches, b.sizes, bufferSize)
  }

  /** The open content: within the buffer size, of records, with content_size its 32-bit size. */
  predicate Open(content: seq<Bytes>, contentSize: uint32, bufferSize: uint32) {
    Filling(content, bufferSize) && AllRecords(content) && contentSize == Bytes32(content)
  }

  /** Flushed batches: each full, each of records, each passed with its own content_size. */
  predicate Closed(bs: seq<seq<Bytes>>, sizes: seq<uint32>, bufferSize: uint32) {
    && |sizes| == |bs|
    && forall i :: 0 <= i < |bs| ==> Full(bs[i], bufferSize) && AllRecords(bs[i]) && sizes[i] == Bytes32(bs[i])
  }

  lemma {:induction false} ClosedSnoc(bs: seq<seq<Bytes>>, sizes: seq<uint32>, bufferSize: uint32, c: seq<Bytes>, size: uint32)
    requires Closed(bs, sizes, bufferSize) && Full(c, bufferSize) && AllRecords(c) && size == Bytes32(c)
    ensures Closed(bs + [c], sizes + [size], bufferSize)
  {
    var bs', ss' := bs + [c], sizes + [size];
    forall i | 0 <= i < |bs'|
      ensures Full(bs'[i], bufferSize) && AllRecords(bs'[i]) && ss'[i] == Bytes32(bs'[i])
    {
      if i < |bs| {
        assert bs'[i] == bs[i] && ss'[i] == sizes[i];
      }
    }
  }

  /** A popped entry whose key was just seen adds nothing. */
  lemma {:induction false} EmitSkip(b: Batching, e: Entry, bufferSize: uint32, out: seq<Entry>)
    requires Emitted(b, out, bufferSize) && b.hasInitial && e.key == b.prev
    ensures Emitted(b, out + [e], bufferSize)
  {
    SurvivorsSnoc(out, e);
  }

  /** A tombstone that leads its key is remembered as prev and dropped. */
  lemma {:induction false} EmitTomb(b: Batching, e: Entry, bufferSize: uint32, out: seq<Entry>)
    requires Emitted(b, out, bufferSize) && (!b.hasInitial || e.key != b.prev) && e.isDelete
    ensures Emitted(b.(hasInitial := true, prev := e.key), out + [e], bufferSize)
  {
    SurvivorsSnoc(out, e);
  }

  /** The records of the survivors grow by the record of a live entry that leads its key. */
  lemma {:induction false} RecordsLead(batches: seq<seq<Bytes>>, c: seq<Bytes>, out: seq<Entry>, e: Entry)
    requires Joined(batches) + c == EntryRecords(Survivors(out))
    requires (out == [] || e.key != out[|out| - 1].key) && !e.isDelete
    ensures Joined(batches) + (c + [e.record]) == EntryRecords(Survivors(out + [e]))
  {
    SurvivorsSnoc(out, e);
    var sv := Survivors(out);
    EntryRecordsSnoc(sv, e);
    AppendAssoc(Joined(batches), c, [e.record]);
  }

  /** Pushing a record that keeps content_size within the buffer size. */
  lemma {:induction false} OpenSnoc(c: seq<Bytes>, contentSize: uint32, r: Bytes, len: uint32, total: uint32, bufferSize: uint32)
    requires Open(c, contentSize, bufferSize) && IsRecord(r) && len == |r| % TWO32
    requires total == (contentSize + len) % TWO32 <= bufferSize
    ensures Open(c + [r], total, bufferSize)
  {
    Bytes32Snoc(c, r, contentSize, len, total);
    FillingSnoc(c, r, bufferSize);
    AllRecordsSnoc(c, r);
  }

  /** Pushing a record that takes content_size past the buffer size fills the batch. */
  lemma {:induction false} CloseSnoc(bs: seq<seq<Bytes>>, sizes: seq<uint32>, c: seq<Bytes>, contentSize: uint32,
                                     r: Bytes, len: uint32, total: uint32, bufferSize: uint32)
    requires Closed(bs, sizes, bufferSize) && Open(c, contentSize, bufferSize) && IsRecord(r) && len == |r| % TWO32
    requires total == (contentSize + len) % TWO32 > bufferSize
    ensures Closed(bs + [c + [r]], sizes + [total], bufferSize)
  {
    Bytes32Snoc(c, r, contentSize, len, total);
    FullSnoc(c, r, bufferSize);
    AllRecordsSnoc(c, r);
    ClosedSnoc(bs, sizes, bufferSize, c + [r], total);
  }

  /** Emitted of a started batching, from its fields. */
  lemma EmittedOf(prev: Bytes, content: seq<Bytes>, contentSize: uint32, batches: seq<seq<Bytes>>, sizes: seq<uint32>,
                  out: seq<Entry>, bufferSize: uint32)
    requires out != [] && prev == out[|out| - 1].key
    requires Joined(batches) + content == EntryRecords(Survivors(out))
    requires Open(content, contentSize, bufferSize) && Closed(batches, sizes, bufferSize)
    ensures Emitted(Batching(true, prev, content, contentSize, batches, sizes), out, bufferSize)
  {
  }

  /** The entry appended last is the last one. */
  lemma LastSnoc(out: seq<Entry>, e: Entry)
    ensures var o := out + [e]; o != [] && o[|o| - 1] == e
  {
  }

  /** Closing the content with a live entry that leads its key keeps every survivor record in the batches. */
  lemma {:induction false} RecordsCut(batches: seq<seq<Bytes>>, c: seq<Bytes>, out: seq<Entry>, e: Entry)
    requires Joined(batches) + c == EntryRecords(Survivors(out))
    requires (out == [] || e.key != out[|out| - 1].key) && !e.isDelete
    ensures Joined(batches + [c + [e.record]]) + [] == EntryRecords(Survivors(out + [e]))
  {
    RecordsLead(batches, c, out, e);
    JoinedSnoc(batches, c + [e.record]);
    assert Joined(batches + [c + [e.record]]) + [] == Joined(batches + [c + [e.record]]);
  }

  /** Nothing is an open content of size 0. */
  lemma OpenEmpty(bufferSize: uint32)
    ensures Open([], 0, bufferSize)
  {
  }

  /** A live entry that leads its key is appended to the open content. */
  lemma {:induction false} EmitPush(b: Batching, e: Entry, bufferSize: uint32, out: seq<Entry>, size: uint32)
    requires Joined(b.batches) + b.content == EntryRecords(Survivors(out))
    requires Open(b.content, b.contentSize, bufferSize) && Closed(b.batches, b.sizes, bufferSize)
    requires (out == [] || e.key != out[|out| - 1].key) && !e.isDelete
    requires IsRecord(e.record) && e.size == |e.record| % TWO32
    requires size == (b.contentSize + e.size) % TWO32 <= bufferSize
    ensures Emitted(Batching(true, e.key, b.content + [e.record], size, b.batches, b.sizes), out + [e], bufferSize)
  {
    OpenSnoc(b.content, b.contentSize, e.record, e.size, size, bufferSize);
    LastSnoc(out, e);
    RecordsLead(b.batches, b.content, out, e);
    EmittedOf(e.key, b.content + [e.record], size, b.batches, b.sizes, out + [e], bufferSize);
  }

  /** A live entry that takes content_size past the buffer size closes the batch. */
  lemma {:induction false} EmitCut(b: Batching, e: Entry, bufferSize: uint32, out: seq<Entry>, size: uint32)
    requires Joined(b.batches) + b.content == EntryRecords(Survivors(out))
    requires Open(b.content, b.contentSize, bufferSize) && Closed(b.batches, b.sizes, bufferSize)
    requires (out == [] || e.key != out[|out| - 1].key) && !e.isDelete
    requires IsRecord(e.record) && e.size == |e.record| % TWO32
    requires size == (b.contentSize + e.size) % TWO32 > bufferSize
    ensures Emitted(Batching(true, e.key, [], 0, b.batches + [b.content + [e.record]], b.sizes + [size]), out + [e], bufferSize)
  {
    CloseSnoc(b.batches, b.sizes, b.content, b.contentSize, e.record, e.size, size, bufferSize);
    OpenEmpty(bufferSize);
    LastSnoc(out, e);
    RecordsCut(b.batches, b.content, out, e);
    EmittedOf(e.key, [], 0, b.batches + [b.content + [e.record]], b.sizes + [size], out + [e], bufferSize);
  }

  /** One popped entry: skipped when its key was just seen, dropped when a tombstone, else appended, with a cut past the buffer size. */
  method Emit(b: Batching, e: Entry, bufferSize: uint32, ghost out: seq<Entry>) returns (b': Batching)
    requires Emitted(b, out, bufferSize)
    requires IsRecord(e.record) && e.size == |e.record| % TWO32
    ensures Emitted(b', out + [e], bufferSize)
  {
    if !b.hasInitial || e.key != b.prev {
      if !e.isDelete {
        var content := b.content + [e.record];
        var size := (b.contentSize + e.size) % TWO32;
        if size > bufferSize {
          EmitCut(b, e, bufferSize, out, size);
          b' := Batching(true, e.key, [], 0, b.batches + [content], b.sizes + [size]);
        } else {
          EmitPush(b, e, bufferSize, out, size);
          b' := Batching(true, e.key, content, size, b.batches, b.sizes);
        }
      } else {
        EmitTomb(b, e, bufferSize, out);
        b' := b.(hasInitial := true, prev := e.key);
      }
    } else {
      EmitSkip(b, e, bufferSize, out);
      b' := b;
    }
  }

  /** The last flush, of what remains, and what the batches then are. */
  method FinalBatch(b: Batching, bufferSize: uint32, ghost out: seq<Entry>) returns (batches: seq<seq<Bytes>>, sizes: seq<uint32>)
    requires Emitted(b, out, bufferSize)
    ensures Joined(batches) == EntryRecords(Survivors(out)) && Cuts(batches, bufferSize)
    ensures |sizes| == |batches| && forall i :: 0 <= i < |batches| ==> sizes[i] == Bytes32(batches[i]) && AllRecords(batches[i])
  {
    batches, sizes := b.batches, b.sizes;
    if b.content != [] {
      JoinedSnoc(batches, b.content);
      batches, sizes := batches + [b.content], sizes + [b.contentSize];
    } else {
      assert Joined(batches) + [] == Joined(batches);
    }
  }

  // ------------------------------------------------------------------
  // The merge loop
  // ------------------------------------------------------------------

  /** Reading input f (as input i) from ptr up to end gives the entries r. */
  predicate Upcoming(f: File, ptr: nat, end: nat, r: seq<Entry>, i: int, tomb: Bytes) {
    EntriesFrom(f.mmap, ptr, end).Some? && Entries(EntriesFrom(f.mmap, ptr, end).value, f, i, tomb) == r
  }

  lemma {:induction false} EntriesCons(r: Bytes, rs: seq<Bytes>, f: File, i: int, tomb: Bytes)
    ensures Entries([r] + rs, f, i, tomb) == [EntryOf(r, f, i, tomb)] + Entries(rs, f, i, tomb)
  {
    assert forall k :: 1 <= k < |rs| + 1 ==> ([r] + rs)[k] == rs[k - 1];
  }

  /** Where ptr is before end, the next entry is the record at ptr and reading goes on after it. */
  lemma {:induction false} UpcomingStep(f: File, ptr: nat, end: nat, r: seq<Entry>, i: int, tomb: Bytes) returns (q: nat)
    requires Upcoming(f, ptr, end, r, i, tomb) && ptr < end
    ensures ptr <= |f.mmap| && IsRecord(f.mmap[ptr..]) && q == ptr + RecordSize(f.mmap[ptr..])
    ensures r != [] && r[0] == EntryOf(f.mmap[ptr..q], f, i, tomb) && Upcoming(f, q, end, r[1..], i, tomb)
  {
    var more;
    q, more := EntriesStep(f.mmap, ptr, end);
    EntriesCons(f.mmap[ptr..q], more, f, i, tomb);
  }

  /** Where ptr has reached end, nothing is left to read. */
  lemma {:induction false} UpcomingDone(f: File, ptr: nat, end: nat, r: seq<Entry>, i: int, tomb: Bytes)
    requires Upcoming(f, ptr, end, r, i, tomb) && end <= ptr
    ensures r == []
  {
  }

  /** Input i's stream is what reading from just after the header and the index offset gives. */
  lemma {:induction false} StreamStart(files: seq<File>, tomb: Bytes, i: nat)
    requires Readable(files, tomb) && i < |files|
    ensures HasHeader(files[i].mmap)
    ensures Upcoming(files[i], RecordSize(files[i].mmap) + 4, IndexStart(files[i].mmap), Streams(files, tomb)[i], i, tomb)
  {
  }

  /** The cursor of each input, past its queued head: reading on from ptrs[i] gives the rest of rest[i]. */
  predicate Cursors(files: seq<File>, ptrs: seq<nat>, idx: seq<uint32>, rest: Sources, tomb: Bytes) {
    && |ptrs| == |files| && |idx| == |files| && |rest| == |files|
    && forall i :: 0 <= i < |files| ==> Upcoming(files[i], ptrs[i], idx[i], Tail(rest[i]), i, tomb)
  }

  /** A queued entry holds a whole record and its 32-bit size. */
  predicate Whole(e: Entry) {
    IsRecord(e.record) && e.size == |e.record| % TWO32
  }

  /** The queue holds exactly the head of every input not yet used up, once each. */
  predicate Queued(pq: seq<Entry>, rest: Sources) {
    Heads(pq, rest) && Covers(pq, rest) && Once(pq) && AllWhole(pq)
  }

  predicate Heads(pq: seq<Entry>, rest: Sources) {
    forall x :: x in pq ==> 0 <= x.index < |rest| && rest[x.index] != [] && rest[x.index][0] == x
  }

  predicate Covers(pq: seq<Entry>, rest: Sources) {
    forall i :: 0 <= i < |rest| && rest[i] != [] ==> rest[i][0] in pq
  }

  predicate Once(pq: seq<Entry>) {
    forall a, b :: 0 <= a < b < |pq| ==> pq[a].index != pq[b].index
  }

  predicate AllWhole(pq: seq<Entry>) {
    forall x :: x in pq ==> Whole(x)
  }

  /** The top of the queue is the head Greedy takes next. */
  lemma {:induction false} TopIsBest(pq: seq<Entry>, rest: Sources, ids: seq<int>) returns (j: nat)
    requires Queued(pq, rest) && Sourced(rest, ids) && Distinct(ids) && pq != []
    ensures j == pq[TopIndex(pq)].index && BestIn(rest, |rest|) == Some(j)
  {
    var x := pq[TopIndex(pq)];
    j := x.index;
    var b := BestIn(rest, |rest|);
    assert rest[j] != [];
    var h := rest[b.value][0];
    assert h in pq;
    QueueCmpIncomparable(x, h);
    assert x.fileId == ids[j] && h.fileId == ids[b.value];
  }

  /** What remains of the queue once position r is popped. */
  function Removed(pq: seq<Entry>, r: nat): (q: seq<Entry>)
    requires r < |pq|
    ensures |q| == |pq| - 1
    ensures forall a :: 0 <= a < |q| ==> q[a] == pq[if a < r then a else a + 1]
  {
    pq[..r] + pq[r + 1..]
  }

  lemma {:induction false} RemovedIn(pq: seq<Entry>, r: nat, x: Entry)
    requires r < |pq|
    ensures x in Removed(pq, r) <==> exists a :: 0 <= a < |pq| && a != r && pq[a] == x
  {
    var q := Removed(pq, r);
    if x in q {
      var a :| 0 <= a < |q| && q[a] == x;
      assert pq[if a < r then a else a + 1] == x;
    }
    if a :| 0 <= a < |pq| && a != r && pq[a] == x {
      assert q[if a < r then a else a - 1] == x;
    }
  }

  /** The next entry of input j, as a queue push: none once j is used up. */
  function Refill(rest: Sources, j: nat): seq<Entry>
    requires j < |rest| && rest[j] != []
  {
    if |rest[j]| == 1 then [] else [rest[j][1]]
  }

  lemma {:induction false} PopHeads(pq: seq<Entry>, rest: Sources, ids: seq<int>, r: nat)
    requires Heads(pq, rest) && Once(pq) && Sourced(rest, ids) && r < |pq|
    ensures Heads(Removed(pq, r) + Refill(rest, pq[r].index), Advance(rest, pq[r].index))
  {
    var j := pq[r].index;
    var t := Advance(rest, j);
    var q := Removed(pq, r);
    forall x | x in q + Refill(rest, j)
      ensures 0 <= x.index < |t| && t[x.index] != [] && t[x.index][0] == x
    {
      if x in q {
        RemovedIn(pq, r, x);
        var a :| 0 <= a < |pq| && a != r && pq[a] == x;
        assert x.index != j by {
          if a < r {
            assert pq[a].index != pq[r].index;
          } else {
            assert pq[r].index != pq[a].index;
          }
        }
      } else {
        assert x == rest[j][1] && x.index == j;
      }
    }
  }

  lemma {:induction false} PopCovers(pq: seq<Entry>, rest: Sources, ids: seq<int>, r: nat)
    requires Heads(pq, rest) && Covers(pq, rest) && Sourced(rest, ids) && r < |pq|
    ensures Covers(Removed(pq, r) + Refill(rest, pq[r].index), Advance(rest, pq[r].index))
  {
    var j := pq[r].index;
    var t := Advance(rest, j);
    var q := Removed(pq, r);
    var next := Refill(rest, j);
    forall i | 0 <= i < |t| && t[i] != []
      ensures t[i][0] in q + next
    {
      if i != j {
        var h := rest[i][0];
        assert h in pq && h.index == i;
        var a :| 0 <= a < |pq| && pq[a] == h;
        RemovedIn(pq, r, h);
      } else {
        assert t[j][0] == next[0];
      }
    }
  }

  lemma {:induction false} PopOnce(pq: seq<Entry>, rest: Sources, ids: seq<int>, r: nat)
    requires Heads(pq, rest) && Once(pq) && Sourced(rest, ids) && r < |pq|
    ensures Once(Removed(pq, r) + Refill(rest, pq[r].index))
  {
    var j := pq[r].index;
    var q := Removed(pq, r);
    var q' := q + Refill(rest, j);
    forall a, b | 0 <= a < b < |q'|
      ensures q'[a].index != q'[b].index
    {
      var a' := if a < r then a else a + 1;
      if b < |q| {
        var b' := if b < r then b else b + 1;
        assert q'[a] == pq[a'] && q'[b] == pq[b'];
      } else {
        assert q'[a] == pq[a'] && a' != r;
        assert q'[b] == rest[j][1] && rest[j][1].index == j;
        if a' < r {
          assert pq[a'].index != pq[r].index;
        } else {
          assert pq[r].index != pq[a'].index;
        }
      }
    }
  }

  lemma {:induction false} PopWhole(pq: seq<Entry>, r: nat, next: seq<Entry>)
    requires AllWhole(pq) && r < |pq| && forall x :: x in next ==> Whole(x)
    ensures AllWhole(Removed(pq, r) + next)
  {
    forall x | x in Removed(pq, r)
      ensures Whole(x)
    {
      RemovedIn(pq, r, x);
    }
  }

  /** Once the queue is empty every input is used up and the merge has nothing left. */
  lemma {:induction false} DrainedQueue(rest: Sources)
    requires Covers([], rest)
    ensures Greedy(rest) == []
  {
    assert forall i :: 0 <= i < |rest| ==> rest[i] == [];
  }

  /** Every readable input starts with its header record and the index offset after it. */
  lemma {:induction false} Headers(files: seq<File>, tomb: Bytes)
    requires Readable(files, tomb)
    ensures forall i :: 0 <= i < |files| ==> HasHeader(files[i].mmap)
  {
    forall i | 0 <= i < |files|
      ensures HasHeader(files[i].mmap)
    {
      assert Stream(files[i], i, tomb).Some?;
    }
  }

  /** The first loop of NWayCompaction: ExtractEntry over each input's header, leaving its cursor after the bounds. */
  method SkipHeaders(files: seq<File>, tomb: Bytes) returns (ptrs: seq<nat>)
    requires Mapped32(files) && forall k :: 0 <= k < |files| ==> HasHeader(files[k].mmap)
    ensures |ptrs| == |files|
    ensures forall k :: 0 <= k < |files| ==> HasHeader(files[k].mmap) && ptrs[k] == RecordSize(files[k].mmap)
  {
    ptrs := [];
    var i := 0;
    while i < |files|
      invariant 0 <= i <= |files| && |ptrs| == i
      invariant forall k :: 0 <= k < i ==> HasHeader(files[k].mmap) && ptrs[k] == RecordSize(files[k].mmap)
    {
      var data := files[i].mmap;
      assert data[0..] == data;
      var header, q := ExtractEntry(data, 0, files[i], i, tomb);
      assert q == RecordSize(files[i].mmap);
      ptrs := ptrs + [q];
      i := i + 1;
    }
  }

  /** The second loop: the fixed32 index offset after each header; the cursor moves past it. */
  method ReadOffsets(files: seq<File>, ptrs: seq<nat>) returns (ptrs': seq<nat>, idx: seq<uint32>)
    requires |ptrs| == |files|
    requires forall k :: 0 <= k < |files| ==> HasHeader(files[k].mmap) && ptrs[k] == RecordSize(files[k].mmap)
    ensures |ptrs'| == |files| && |idx| == |files|
    ensures forall k :: 0 <= k < |files| ==>
      HasHeader(files[k].mmap) && ptrs'[k] == RecordSize(files[k].mmap) + 4 && idx[k] == IndexStart(files[k].mmap)
  {
    ptrs' := ptrs;
    idx := [];
    var i := 0;
    while i < |files|
      invariant 0 <= i <= |files| && |ptrs'| == |files| && |idx| == i
      invariant forall k :: 0 <= k < |files| ==> ptrs'[k] == RecordSize(files[k].mmap) + (if k < i then 4 else 0)
      invariant forall k :: 0 <= k < i ==> idx[k] == IndexStart(files[k].mmap)
    {
      idx := idx + [GetFixed32(files[i].mmap[ptrs'[i]..])];
      ptrs' := ptrs'[i := ptrs'[i] + 4];
      i := i + 1;
    }
  }

  /** Setting cursor i to q, where reading from q gives the rest of input i, keeps the cursors before it. */
  lemma {:induction false} CursorAt(files: seq<File>, ptrs: seq<nat>, idx: seq<uint32>, srcs: Sources, tomb: Bytes, i: nat, q: nat)
    requires i < |files| == |ptrs| == |idx| == |srcs|
    requires forall k :: 0 <= k < i ==> Upcoming(files[k], ptrs[k], idx[k], Tail(srcs[k]), k, tomb)
    requires Upcoming(files[i], q, idx[i], Tail(srcs[i]), i, tomb)
    ensures forall k :: 0 <= k < i + 1 ==> Upcoming(files[k], ptrs[i := q][k], idx[k], Tail(srcs[k]), k, tomb)
  {
    var p := ptrs[i := q];
    forall k | 0 <= k < i + 1
      ensures Upcoming(files[k], p[k], idx[k], Tail(srcs[k]), k, tomb)
    {
      if k < i {
        assert p[k] == ptrs[k];
      }
    }
  }

  /** The state of the third loop after i inputs: those have pushed their first entry, the others are untouched. */
  predicate Pushed(files: seq<File>, tomb: Bytes, srcs: Sources, ptrs0: seq<nat>, ptrs: seq<nat>, idx: seq<uint32>,
                   pq: seq<Entry>, i: nat)
  {
    && i <= |files| && |ptrs0| == |files| && |ptrs| == |files| && |idx| == |files| && |srcs| == |files|
    && (forall k :: i <= k < |files| ==> ptrs[k] == ptrs0[k])
    && (forall k :: 0 <= k < i ==> Upcoming(files[k], ptrs[k], idx[k], Tail(srcs[k]), k, tomb))
    && QueuedBelow(pq, srcs, i)
  }

  /** The queue holds the heads of the first i inputs, once each. */
  predicate QueuedBelow(pq: seq<Entry>, srcs: Sources, i: nat) {
    && i <= |srcs|
    && (forall x :: x in pq ==> 0 <= x.index < i && srcs[x.index] != [] && srcs[x.index][0] == x)
    && (forall k :: 0 <= k < i && srcs[k] != [] ==> srcs[k][0] in pq)
    && Once(pq) && AllWhole(pq)
  }

  lemma {:induction false} QueuedPush(pq: seq<Entry>, srcs: Sources, i: nat, e: Entry)
    requires QueuedBelow(pq, srcs, i) && i < |srcs| && srcs[i] != [] && e == srcs[i][0] && e.index == i && Whole(e)
    ensures QueuedBelow(pq + [e], srcs, i + 1)
  {
    var q := pq + [e];
    forall a, b | 0 <= a < b < |q|
      ensures q[a].index != q[b].index
    {
      if b < |pq| {
        assert q[a] == pq[a] && q[b] == pq[b];
      } else {
        assert q[a] == pq[a] && pq[a] in pq;
      }
    }
  }

  lemma {:induction false} QueuedSkip(pq: seq<Entry>, srcs: Sources, i: nat)
    requires QueuedBelow(pq, srcs, i) && i < |srcs| && srcs[i] == []
    ensures QueuedBelow(pq, srcs, i + 1)
  {
  }

  /** One turn of the third loop. */
  method PushOne(files: seq<File>, tomb: Bytes, ghost srcs: Sources, ghost ptrs0: seq<nat>, ptrs: seq<nat>, idx: seq<uint32>,
                 pq: seq<Entry>, i: nat)
    returns (ptrs': seq<nat>, pq': seq<Entry>)
    requires Mapped32(files) && Pushed(files, tomb, srcs, ptrs0, ptrs, idx, pq, i) && i < |files|
    requires Upcoming(files[i], ptrs0[i], idx[i], srcs[i], i, tomb)
    ensures Pushed(files, tomb, srcs, ptrs0, ptrs', idx, pq', i + 1)
  {
    ptrs', pq' := ptrs, pq;
    if ptrs[i] < idx[i] {
      ghost var q0 := UpcomingStep(files[i], ptrs[i], idx[i], srcs[i], i, tomb);
      var e, q := ExtractEntry(files[i].mmap, ptrs[i], files[i], i, tomb);
      assert q == q0;
      assert e == srcs[i][0];
      CursorAt(files, ptrs, idx, srcs, tomb, i, q);
      QueuedPush(pq, srcs, i, e);
      pq' := pq + [e];
      ptrs' := ptrs[i := q];
    } else {
      UpcomingDone(files[i], ptrs[i], idx[i], srcs[i], i, tomb);
      CursorAt(files, ptrs, idx, srcs, tomb, i, ptrs[i]);
      QueuedSkip(pq, srcs, i);
      assert ptrs[i := ptrs[i]] == ptrs;
    }
  }

  /** The third loop: each input with an entry before its index pushes that entry, and its cursor moves past it. */
  method PushFirst(files: seq<File>, tomb: Bytes, ptrs: seq<nat>, idx: seq<uint32>) returns (ptrs': seq<nat>, pq: seq<Entry>)
    requires Readable(files, tomb) && Mapped32(files) && |ptrs| == |files| && |idx| == |files|
    requires forall k :: 0 <= k < |files| ==> Upcoming(files[k], ptrs[k], idx[k], Streams(files, tomb)[k], k, tomb)
    ensures Cursors(files, ptrs', idx, Streams(files, tomb), tomb) && Queued(pq, Streams(files, tomb))
  {
    ghost var srcs := Streams(files, tomb);
    ptrs' := ptrs;
    pq := [];
    var i := 0;
    while i < |files|
      invariant Pushed(files, tomb, srcs, ptrs, ptrs', idx, pq, i)
    {
      ptrs', pq := PushOne(files, tomb, srcs, ptrs, ptrs', idx, pq, i);
      i := i + 1;
    }
  }


  /** Cursor i moved to q, where reading gives the rest of input i's new entries. */
  lemma {:induction false} CursorsSet(files: seq<File>, ptrs: seq<nat>, idx: seq<uint32>, rest: Sources, tomb: Bytes,
                                      i: nat, q: nat, x: seq<Entry>)
    requires Cursors(files, ptrs, idx, rest, tomb) && i < |files|
    requires Upcoming(files[i], q, idx[i], Tail(x), i, tomb)
    ensures Cursors(files, ptrs[i := q], idx, rest[i := x], tomb)
  {
    var p, t := ptrs[i := q], rest[i := x];
    forall k | 0 <= k < |files|
      ensures Upcoming(files[k], p[k], idx[k], Tail(t[k]), k, tomb)
    {
      if k != i {
        assert p[k] == ptrs[k] && t[k] == rest[k];
      }
    }
  }

  /** The state of the main loop: cursors, queue and output agree with the merge of what is left. */
  predicate Merging(files: seq<File>, tomb: Bytes, ids: seq<int>, srcs: Sources, ptrs: seq<nat>, idx: seq<uint32>,
                    pq: seq<Entry>, rest: Sources, out: seq<Entry>, b: Batching, bufferSize: uint32)
  {
    && Cursors(files, ptrs, idx, rest, tomb)
    && Queued(pq, rest)
    && Sourced(rest, ids)
    && out + Greedy(rest) == Greedy(srcs)
    && Emitted(b, out, bufferSize)
  }

  /** What popping the top does to the merge still to come. */
  lemma {:induction false} MergeAdvance(srcs: Sources, rest: Sources, out: seq<Entry>, j: nat)
    requires BestIn(rest, |rest|) == Some(j) && out + Greedy(rest) == Greedy(srcs)
    ensures Total(Advance(rest, j)) < Total(rest)
    ensures (out + [rest[j][0]]) + Greedy(Advance(rest, j)) == Greedy(srcs)
  {
    GreedyCons(rest, j);
    AppendAssoc(out, [rest[j][0]], Greedy(Advance(rest, j)));
  }

  /** The queue without its top, and the next entry of the top's input pushed where there is one. */
  method PopRefill(files: seq<File>, tomb: Bytes, ghost ids: seq<int>, ptrs: seq<nat>, idx: seq<uint32>,
                   pq: seq<Entry>, ghost rest: Sources, r: nat)
    returns (ptrs': seq<nat>, pq': seq<Entry>)
    requires Mapped32(files) && r < |pq|
    requires Cursors(files, ptrs, idx, rest, tomb) && Queued(pq, rest) && Sourced(rest, ids)
    ensures Cursors(files, ptrs', idx, Advance(rest, pq[r].index), tomb)
    ensures Queued(pq', Advance(rest, pq[r].index))
  {
    var i := pq[r].index;
    assert pq[r] in pq;
    ghost var next := Refill(rest, i);
    pq' := pq[..r] + pq[r + 1..];
    assert pq' == Removed(pq, r);
    if ptrs[i] < idx[i] {
      ghost var q0 := UpcomingStep(files[i], ptrs[i], idx[i], Tail(rest[i]), i, tomb);
      var e', q := ExtractEntry(files[i].mmap, ptrs[i], files[i], i, tomb);
      assert q == q0;
      assert next == [e'];
      CursorsSet(files, ptrs, idx, rest, tomb, i, q, rest[i][1..]);
      pq' := pq' + [e'];
      ptrs' := ptrs[i := q];
    } else {
      UpcomingDone(files[i], ptrs[i], idx[i], Tail(rest[i]), i, tomb);
      assert next == [];
      CursorsSet(files, ptrs, idx, rest, tomb, i, ptrs[i], rest[i][1..]);
      assert pq' + [] == pq';
      assert ptrs[i := ptrs[i]] == ptrs;
      ptrs' := ptrs;
    }
    PopHeads(pq, rest, ids, r);
    PopCovers(pq, rest, ids, r);
    PopOnce(pq, rest, ids, r);
    PopWhole(pq, r, next);
  }

  /** One turn of the main loop: pop the top, emit it, and push the next entry of its input. */
  method MergeStep(files: seq<File>, tomb: Bytes, ghost ids: seq<int>, ghost srcs: Sources, ptrs: seq<nat>, idx: seq<uint32>,
                   pq: seq<Entry>, ghost rest: Sources, ghost out: seq<Entry>, b: Batching, bufferSize: uint32)
    returns (ptrs': seq<nat>, pq': seq<Entry>, ghost rest': Sources, ghost out': seq<Entry>, b': Batching)
    requires Mapped32(files) && Distinct(ids) && pq != []
    requires Merging(files, tomb, ids, srcs, ptrs, idx, pq, rest, out, b, bufferSize)
    ensures Merging(files, tomb, ids, srcs, ptrs', idx, pq', rest', out', b', bufferSize)
    ensures Total(rest') < Total(rest)
  {
    var r := TopIndex(pq);
    var e := pq[r];
    ghost var j := TopIsBest(pq, rest, ids);
    MergeAdvance(srcs, rest, out, j);
    assert e in pq;
    b' := Emit(b, e, bufferSize, out);
    ptrs', pq' := PopRefill(files, tomb, ids, ptrs, idx, pq, rest, r);
    SourcedAdvance(rest, ids, j);
    rest', out' := Advance(rest, j), out + [e];
  }

  /**
   * The merge of NWayCompaction, up to the files it writes: the batches
   * FlushCompactedFile is given, in order, with the content_size passed
   * with each. The inputs are read from their mappings, which the writes
   * do not change, so the flushes can follow the merge.
   */
  method MergeFiles(files: seq<File>, tomb: Bytes, bufferSize: uint32) returns (batches: seq<seq<Bytes>>, sizes: seq<uint32>)
    requires Readable(files, tomb) && Mapped32(files) && Distinct(FileIds(files))
    ensures Joined(batches) == EntryRecords(Survivors(Greedy(Streams(files, tomb))))
    ensures Cuts(batches, bufferSize)
    ensures |sizes| == |batches| && forall i :: 0 <= i < |batches| ==> sizes[i] == Bytes32(batches[i]) && AllRecords(batches[i])
  {
    ghost var srcs := Streams(files, tomb);
    ghost var ids := FileIds(files);
    StreamsTagged(files, tomb);
    Headers(files, tomb);
    var ptrs := SkipHeaders(files, tomb);
    var idx;
    ptrs, idx := ReadOffsets(files, ptrs);
    forall k | 0 <= k < |files|
      ensures Upcoming(files[k], ptrs[k], idx[k], srcs[k], k, tomb)
    {
      StreamStart(files, tomb, k);
    }
    var pq;
    ptrs, pq := PushFirst(files, tomb, ptrs, idx);
    var b := Batching(false, [], [], 0, [], []);
    ghost var rest, out := srcs, [];
    assert out + Greedy(rest) == Greedy(srcs);
    while pq != []
      invariant Merging(files, tomb, ids, srcs, ptrs, idx, pq, rest, out, b, bufferSize)
      decreases Total(rest)
    {
      ptrs, pq, rest, out, b := MergeStep(files, tomb, ids, srcs, ptrs, idx, pq, rest, out, b, bufferSize);
    }
    DrainedQueue(rest);
    assert out + [] == out;
    batches, sizes := FinalBatch(b, bufferSize, out);
  }
}
