/**
 * The DataBase of db/data_base.cpp: Add, which puts a record into the
 * storage buffer (a delete as a put of the tomb value), and Get, which asks
 * the buffers first, then the segments that may hold the key, level by
 * level and newest first, through the LRU cache of their key-offset
 * tables.
 */
module DataBases {
  import opened Wrappers
  import opened Coding
  import opened Utils
  import opened Files
  import opened Segments
  import opened SkipListSpec
  import opened Engine
  import opened StorageEngines
  import opened StorageBuffers
  import opened Caches

  /**
   * ByteArray(s.c_str(), s.size()): the size narrows to uint32_t, so the
   * array covers the first |s| modulo 2^32 bytes of s.
   */
  function ByteArrayOf(s: Bytes): (r: Bytes)
    ensures |r| < TWO32 && |r| == |s| % TWO32 && r <= s
    ensures |s| < TWO32 ==> r == s
  {
    s[..|s| % TWO32]
  }

  /** The value Add stores: the tomb value for a delete, the given value for a put. */
  function AddedValue(orderType: OrderType, value: Bytes, tomb: Bytes): Bytes {
    if orderType == Delete then tomb else value
  }

  /**
   * What Get learns from one candidate file: the value of the record its
   * index points the key to, a miss (the key is not in the index, or its
   * offset is 0), or a file the C cannot read (no file of that id is
   * mapped, or its index or the record does not parse).
   */
  datatype Probe = Hit(value: Bytes) | Miss | Broken

  /** The probe of the file that files_map_ holds for id. */
  function ProbeOf(files: map<int, File>, id: int, key: Bytes): Probe {
    if id !in files then Broken
    else
      match Loaded(files[id].mmap, map[])
      case None => Broken
      case Some(t) =>
        if key !in t || t[key] == 0 then Miss
        else
          match ValueAt(files[id].mmap, t[key])
          case None => Broken
          case Some(v) => Hit(v)
  }

  /** The inner loop of Get: the first probe of a level's candidates that is not a miss. */
  function FirstProbe(files: map<int, File>, fs: seq<File>, key: Bytes): Probe
    decreases |fs|
  {
    if fs == [] then Miss
    else
      var p := ProbeOf(files, fs[0].fileId, key);
      if p.Miss? then FirstProbe(files, fs[1..], key) else p
  }

  /** The outer loop of Get: the first level whose candidates give something other than a miss. */
  function FirstProbeAll(files: map<int, File>, lists: seq<seq<File>>, key: Bytes): Probe
    decreases |lists|
  {
    if lists == [] then Miss
    else
      var p := FirstProbe(files, lists[0], key);
      if p.Miss? then FirstProbeAll(files, lists[1..], key) else p
  }

  /**
   * The search stops at the first candidate whose probe is not a miss: j is
   * that candidate, or |fs| when every probe misses.
   */
  lemma {:induction false} FirstProbeAt(files: map<int, File>, fs: seq<File>, key: Bytes) returns (j: nat)
    ensures j <= |fs|
    ensures forall k :: 0 <= k < j ==> ProbeOf(files, fs[k].fileId, key).Miss?
    ensures j < |fs| ==> !ProbeOf(files, fs[j].fileId, key).Miss? && FirstProbe(files, fs, key) == ProbeOf(files, fs[j].fileId, key)
    ensures j == |fs| ==> FirstProbe(files, fs, key) == Miss
    decreases |fs|
  {
    if fs == [] {
      return 0;
    }
    if !ProbeOf(files, fs[0].fileId, key).Miss? {
      return 0;
    }
    var i := FirstProbeAt(files, fs[1..], key);
    MissesShift(files, fs, key, i);
    j := i + 1;
  }

  /** Misses on the first candidate and on the first i of the rest are misses on the first i + 1. */
  lemma MissesShift(files: map<int, File>, fs: seq<File>, key: Bytes, i: nat)
    requires 0 < |fs| && i < |fs| && ProbeOf(files, fs[0].fileId, key).Miss?
    requires forall k :: 0 <= k < i ==> ProbeOf(files, fs[1..][k].fileId, key).Miss?
    ensures forall k :: 0 <= k <= i ==> ProbeOf(files, fs[k].fileId, key).Miss?
  {
    forall k | 0 < k <= i
      ensures ProbeOf(files, fs[k].fileId, key).Miss?
    {
      assert fs[k] == fs[1..][k - 1];
    }
  }

  /** Every cached table is the index of the file mapped under its id. */
  predicate Coherent(tables: map<int, Table>, files: map<int, File>) {
    forall id :: id in tables && id in files ==> Loaded(files[id].mmap, map[]) == Some(tables[id])
  }

  /** Caching the loaded index of a mapped file, and perhaps evicting another, keeps the cache coherent. */
  lemma {:induction false} CoherentSet(before: map<int, Table>, evicted: Option<int>, after: map<int, Table>, files: map<int, File>, id: int, t: Table)
    requires Coherent(before, files) && id in files && Loaded(files[id].mmap, map[]) == Some(t)
    requires after == (if evicted.Some? then before - {evicted.value} else before)[id := t]
    ensures Coherent(after, files)
  {
    forall j | j in after && j in files
      ensures Loaded(files[j].mmap, map[]) == Some(after[j])
    {
      if j != id {
        assert j in before && after[j] == before[j];
      }
    }
  }

  /** The part of the LRU cache Get's probes change: the cached ids, most recent first, and their tables. */
  datatype CacheState = CacheState(ids: seq<int>, tables: map<int, Table>)

  /** LRUCache::Get on id and key: a hit on a key of a cached table makes id the most recently used. */
  function LookedUp(c: CacheState, id: int, key: Bytes): (r: CacheState)
    ensures r.tables == c.tables
    ensures id in c.tables && key in c.tables[id] ==> |r.ids| > 0 && r.ids[0] == id
  {
    if id in c.tables && key in c.tables[id] then c.(ids := MoveToFront(c.ids, id)) else c
  }

  /**
   * LRUCache::Set of an id that is not cached: when the cache is full the
   * least recently used id and its table go; id and t come in as the most
   * recently used. (A capacity of 0 never arises: the cache's invariant
   * excludes it.)
   */
  function Admitted(c: CacheState, capacity: int, id: int, t: Table): (r: CacheState)
    ensures |r.ids| > 0 && r.ids[0] == id && id in r.tables && r.tables[id] == t
    ensures forall j :: j in r.tables && j != id ==> j in c.tables && r.tables[j] == c.tables[j]
  {
    if c.ids != [] && |c.ids| == capacity then
      CacheState([id] + c.ids[..|c.ids| - 1], (c.tables - {c.ids[|c.ids| - 1]})[id := t])
    else
      CacheState([id] + c.ids, c.tables[id := t])
  }

  /**
   * What one probe of Get does to the cache: nothing for an id with no
   * mapped file or an index that does not parse; a cached id is looked up
   * (LookedUp); another has its loaded index admitted.
   */
  function AfterProbe(files: map<int, File>, c: CacheState, capacity: int, id: int, key: Bytes): CacheState {
    if id !in files then c
    else if id in c.tables then LookedUp(c, id, key)
    else
      match Loaded(files[id].mmap, map[])
      case None => c
      case Some(t) => Admitted(c, capacity, id, t)
  }

  /** What Get's inner loop does to the cache: the probes of a level's candidates up to the first that is not a miss. */
  function AfterLevel(files: map<int, File>, fs: seq<File>, key: Bytes, c: CacheState, capacity: int): CacheState
    decreases |fs|
  {
    if fs == [] then c
    else
      var c' := AfterProbe(files, c, capacity, fs[0].fileId, key);
      if ProbeOf(files, fs[0].fileId, key).Miss? then AfterLevel(files, fs[1..], key, c', capacity) else c'
  }

  /** What Get's outer loop does to the cache: the levels up to the first whose candidates give something other than a miss. */
  function AfterLists(files: map<int, File>, lists: seq<seq<File>>, key: Bytes, c: CacheState, capacity: int): CacheState
    decreases |lists|
  {
    if lists == [] then c
    else
      var c' := AfterLevel(files, lists[0], key, c, capacity);
      if FirstProbe(files, lists[0], key).Miss? then AfterLists(files, lists[1..], key, c', capacity) else c'
  }

  /**
   * A probe of a mapped file whose index loads leaves that index cached
   * under the file's id, as the most recently used id unless the id was
   * cached already and the key is not in its table.
   */
  lemma ProbeCaches(files: map<int, File>, c: CacheState, capacity: int, id: int, key: Bytes, t: Table)
    requires Coherent(c.tables, files) && id in files && Loaded(files[id].mmap, map[]) == Some(t)
    ensures var c' := AfterProbe(files, c, capacity, id, key);
      && id in c'.tables && c'.tables[id] == t
      && (id !in c.tables || key in t ==> |c'.ids| > 0 && c'.ids[0] == id)
  {
  }

  /** Every probe keeps the cache coherent with the file map. */
  lemma {:induction false} CoherentProbe(files: map<int, File>, c: CacheState, capacity: int, id: int, key: Bytes)
    requires Coherent(c.tables, files)
    ensures Coherent(AfterProbe(files, c, capacity, id, key).tables, files)
  {
    if id in files && id !in c.tables && Loaded(files[id].mmap, map[]).Some? {
      var t := Loaded(files[id].mmap, map[]).value;
      if c.ids != [] && |c.ids| == capacity {
        CoherentSet(c.tables, Some(c.ids[|c.ids| - 1]), AfterProbe(files, c, capacity, id, key).tables, files, id, t);
      } else {
        CoherentSet(c.tables, None, AfterProbe(files, c, capacity, id, key).tables, files, id, t);
      }
    }
  }

  /** Get's inner loop keeps the cache coherent with the file map. */
  lemma {:induction false} CoherentLevel(files: map<int, File>, fs: seq<File>, key: Bytes, c: CacheState, capacity: int)
    requires Coherent(c.tables, files)
    ensures Coherent(AfterLevel(files, fs, key, c, capacity).tables, files)
    decreases |fs|
  {
    if fs != [] {
      CoherentProbe(files, c, capacity, fs[0].fileId, key);
      CoherentLevel(files, fs[1..], key, AfterProbe(files, c, capacity, fs[0].fileId, key), capacity);
    }
  }

  /**
   * When a level's candidates give a hit, the file j that gave it is the
   * most recently used entry of the cache afterwards, with its index.
   */
  lemma {:induction false} HitCached(files: map<int, File>, fs: seq<File>, key: Bytes, c: CacheState, capacity: int) returns (j: nat)
    requires Coherent(c.tables, files) && FirstProbe(files, fs, key).Hit?
    ensures j < |fs| && fs[j].fileId in files && FirstProbe(files, fs, key) == ProbeOf(files, fs[j].fileId, key)
    ensures var id, c' := fs[j].fileId, AfterLevel(files, fs, key, c, capacity);
      && |c'.ids| > 0 && c'.ids[0] == id
      && Loaded(files[id].mmap, map[]).Some? && id in c'.tables && c'.tables[id] == Loaded(files[id].mmap, map[]).value
    decreases |fs|
  {
    var id := fs[0].fileId;
    if ProbeOf(files, id, key).Miss? {
      CoherentProbe(files, c, capacity, id, key);
      var i := HitCached(files, fs[1..], key, AfterProbe(files, c, capacity, id, key), capacity);
      assert fs[1..][i] == fs[i + 1];
      j := i + 1;
    } else {
      ProbeCaches(files, c, capacity, id, key, Loaded(files[id].mmap, map[]).value);
      j := 0;
    }
  }

  /**
   * When Get's search of the files gives a hit, the file that gave it, the
   * j-th candidate of level i, is the most recently used entry of the
   * cache afterwards, with its index.
   */
  lemma {:induction false} HitCachedAll(files: map<int, File>, lists: seq<seq<File>>, key: Bytes, c: CacheState, capacity: int) returns (i: nat, j: nat)
    requires Coherent(c.tables, files) && FirstProbeAll(files, lists, key).Hit?
    ensures i < |lists| && j < |lists[i]| && lists[i][j].fileId in files
    ensures FirstProbeAll(files, lists, key) == ProbeOf(files, lists[i][j].fileId, key)
    ensures var id, c' := lists[i][j].fileId, AfterLists(files, lists, key, c, capacity);
      && |c'.ids| > 0 && c'.ids[0] == id
      && Loaded(files[id].mmap, map[]).Some? && id in c'.tables && c'.tables[id] == Loaded(files[id].mmap, map[]).value
    decreases |lists|
  {
    if FirstProbe(files, lists[0], key).Miss? {
      CoherentLevel(files, lists[0], key, c, capacity);
      var k, l := HitCachedAll(files, lists[1..], key, AfterLevel(files, lists[0], key, c, capacity), capacity);
      assert lists[1..][k] == lists[k + 1];
      i, j := k + 1, l;
    } else {
      j := HitCached(files, lists[0], key, c, capacity);
      i := 0;
    }
  }

  /** What the two buffer lists answer for key: the income list's value, else the flush list's. */
  function Resolve(inc: seq<Bytes>, fl: seq<Bytes>, key: Bytes): Option<Bytes> {
    Newest(Lookup(inc, key), Lookup(fl, key))
  }

  /**
   * What the buffers answer after the storage buffer's Add of Record(k, v),
   * from the income list inc and the flush list fl before it: k gives v;
   * another key gives what it gave before, or, when the income list became
   * the flush list, what the old income list gave.
   */
  lemma AddResolution(inc: seq<Bytes>, fl: seq<Bytes>, inc': seq<Bytes>, fl': seq<Bytes>, k: Bytes, v: Bytes, swapped: bool)
    requires AllHaveKeys(inc) && Sorted(Keys(inc))
    requires |k| < TWO32 && |v| < TWO32 && |Record(k, v)| < TWO32
    requires swapped ==> fl' == InsertSorted(inc, Record(k, v)) && inc' == []
    requires !swapped ==> inc' == InsertSorted(inc, Record(k, v)) && fl' == fl
    ensures Resolve(inc', fl', k) == Some(v)
    ensures forall k' :: k' != k ==>
      Resolve(inc', fl', k') == if swapped then Lookup(inc, k') else Resolve(inc, fl, k')
  {
    LookupInsert(inc, k, v, k);
    forall k' | k' != k
      ensures Resolve(inc', fl', k') == if swapped then Lookup(inc, k') else Resolve(inc, fl, k')
    {
      LookupInsert(inc, k, v, k');
    }
  }

  /** lists and order are what GetContainsFiles gives for key: per level, ascending, the files covering key, newest first. */
  ghost predicate ContainsLists(levels: map<int, seq<File>>, key: Bytes, lists: seq<seq<File>>, order: seq<int>) {
    && LevelsSorted(levels)
    && |lists| == |order|
    && (forall i, j :: 0 <= i < j < |order| ==> order[i] < order[j])
    && (forall l :: l in levels <==> l in order)
    && (forall i :: 0 <= i < |order| ==>
          && order[i] in levels && SortedBy(ByNewest, lists[i])
          && multiset(lists[i]) == multiset(Covering(levels[order[i]], key)))
  }

  class DataBase {
    const buffer: StorageBuffer
    const engine: StorageEngine
    const cache: LRUCache
    /** Constant::TombValue. */
    const tomb: Bytes
    var isStop: bool

    /**
     * The three parts are valid and agree on the tomb value, and the cache
     * holds the true index of every mapped file it caches. (They share no
     * object: each is of its own classes.)
     */
    ghost predicate Valid()
      reads this, buffer, buffer.IncomeObjects(), buffer.FlushObjects(), engine, cache, cache.Repr
    {
      buffer.Valid() && engine.Valid() && Probing() && tomb == engine.tomb
    }

    /** What Get's probes keep: the cache valid and coherent with the file map. */
    ghost predicate Probing()
      reads this, engine, cache, cache.Repr
    {
      cache.Valid() && Coherent(cache.tables, engine.tables.files)
    }

    /** The cached ids, most recent first, and their tables. */
    ghost function CacheView(): CacheState
      reads this, cache
    {
      CacheState(cache.ids, cache.tables)
    }

    /** What the buffers answer for key: the income buffer's value, else the flush buffer's. */
    ghost function Resolved(key: Bytes): Option<Bytes>
      reads this, buffer, buffer.incomeBuffer, buffer.flushBuffer
    {
      Resolve(buffer.Income(), buffer.Flushing(), key)
    }

    constructor (buffer: StorageBuffer, engine: StorageEngine, cache: LRUCache, tomb: Bytes)
      requires buffer.Valid() && engine.Valid() && cache.Valid() && cache.tables == map[] && tomb == engine.tomb
      ensures Valid() && !isStop
      ensures this.buffer == buffer && this.engine == engine && this.cache == cache && this.tomb == tomb
    {
      this.buffer := buffer;
      this.engine := engine;
      this.cache := cache;
      this.tomb := tomb;
      isStop := false;
    }

    /**
     * Add: a delete becomes a put of the tomb value; key and value are
     * handed to the storage buffer as ByteArrays, cut to their 32-bit sizes.
     * Afterwards the buffers answer that key with that value, and every
     * other key as before, unless the income list was swapped, which drops
     * the old flush list. ok is false, and the buffers unchanged, when the
     * record's 32-bit length wraps.
     */
    method Add(orderType: OrderType, key: Bytes, value: Bytes) returns (ok: bool)
      requires buffer.Valid()
      modifies buffer, buffer.incomeBuffer, buffer.incomeBuffer.rnd, buffer.incomeBuffer.memory, buffer.incomeBuffer.memory.blocks
      ensures buffer.Valid()
      ensures ok <==> Encodable(ByteArrayOf(key), ByteArrayOf(AddedValue(orderType, value, tomb)))
      ensures !ok ==> buffer.Income() == old(buffer.Income()) && buffer.Flushing() == old(buffer.Flushing())
      ensures ok ==> Resolved(ByteArrayOf(key)) == Some(ByteArrayOf(AddedValue(orderType, value, tomb)))
      ensures ok ==> var swapped := old(buffer.flushThreadReady) && !buffer.flushThreadReady;
        forall k :: k != ByteArrayOf(key) ==>
          Resolved(k) == if swapped then old(Lookup(buffer.Income(), k)) else old(Resolved(k))
    {
      ghost var before, flushing, ready := buffer.Income(), buffer.Flushing(), buffer.flushThreadReady;
      assert AllHaveKeys(before) && Sorted(Keys(before)) by {
        assert buffer.incomeBuffer.Valid();
      }
      var v := value;
      var kind := orderType;
      if orderType == Delete {
        kind := Put;
        v := tomb;
      }
      var k, bytes := ByteArrayOf(key), ByteArrayOf(v);
      ok := buffer.Add(kind, k, bytes);
      if ok {
        AddResolution(before, flushing, buffer.Income(), buffer.Flushing(), k, bytes, ready && !buffer.flushThreadReady);
      }
    }

    /**
     * Get: status 0 and the value where the buffers hold the key; otherwise
     * the candidates GetContainsFiles gives are probed in order, through
     * the cache, and the first one that is not a miss decides: status 0 and
     * its value for a hit, -1 and value_out untouched otherwise. A stopped
     * database answers -1.
     */
    method Get(key: Bytes, valueOut: Bytes) returns (status: int, value: Bytes, ghost lists: seq<seq<File>>, ghost order: seq<int>)
      requires Valid() && |key| < TWO32
      modifies cache, cache.Repr
      ensures Valid() && cache.capacity == old(cache.capacity)
      ensures isStop ==> status == -1 && value == valueOut && CacheView() == old(CacheView())
      ensures !isStop && Resolved(key).Some? ==> status == 0 && value == Resolved(key).value && CacheView() == old(CacheView())
      ensures !isStop && Resolved(key).None? ==>
        && ContainsLists(engine.tables.levels, key, lists, order)
        && CacheView() == AfterLists(engine.tables.files, lists, key, old(CacheView()), cache.capacity)
        && match FirstProbeAll(engine.tables.files, lists, key)
           case Hit(v) => status == 0 && value == v
           case _ => status == -1 && value == valueOut
    {
      lists, order := [], [];
      if isStop {
        return -1, valueOut, lists, order;
      }
      status, value := AskBuffers(key, valueOut);
      if status == 0 {
        return;
      }
      status, value, lists, order := SearchKept(key, valueOut);
    }

    /** The first half of Get: the storage buffer's answer, which changes nothing. */
    method AskBuffers(key: Bytes, valueOut: Bytes) returns (status: int, value: Bytes)
      requires Valid() && |key| < TWO32
      ensures Valid() && cache.capacity == old(cache.capacity) && CacheView() == old(CacheView())
      ensures Resolved(key).Some? ==> status == 0 && value == Resolved(key).value
      ensures Resolved(key).None? ==> status == -1 && value == valueOut
    {
      ghost var income, flush := buffer.IncomeObjects(), buffer.FlushObjects();
      status, value := buffer.Get(key, valueOut);
      assert buffer.IncomeObjects() == income && buffer.FlushObjects() == flush;
      assert buffer.Valid() && engine.Valid() && Probing();
    }

    /** SearchEngine seen from Get: the buffers and the stop flag are not touched. */
    method SearchKept(key: Bytes, valueOut: Bytes) returns (status: int, value: Bytes, ghost lists: seq<seq<File>>, ghost order: seq<int>)
      requires Valid()
      modifies cache, cache.Repr
      ensures Valid() && isStop == old(isStop) && Resolved(key) == old(Resolved(key))
      ensures ContainsLists(engine.tables.levels, key, lists, order)
      ensures cache.capacity == old(cache.capacity)
      ensures CacheView() == AfterLists(engine.tables.files, lists, key, old(CacheView()), cache.capacity)
      ensures match FirstProbeAll(engine.tables.files, lists, key)
        case Hit(v) => status == 0 && value == v
        case _ => status == -1 && value == valueOut
    {
      ghost var income, flush := buffer.IncomeObjects(), buffer.FlushObjects();
      ghost var inc, fl := buffer.Income(), buffer.Flushing();
      status, value, lists, order := SearchEngine(key, valueOut);
      assert buffer.IncomeObjects() == income && buffer.FlushObjects() == flush;
      assert buffer.Income() == inc && buffer.Flushing() == fl;
      assert buffer.Valid() && engine.Valid();
    }

    /** The second half of Get: the candidate files of every level, searched through the cache. */
    method SearchEngine(key: Bytes, valueOut: Bytes) returns (status: int, value: Bytes, ghost lists: seq<seq<File>>, ghost order: seq<int>)
      requires engine.Valid() && Probing()
      modifies cache, cache.Repr
      ensures Probing() && fresh(cache.Repr - old(cache.Repr))
      ensures ContainsLists(engine.tables.levels, key, lists, order)
      ensures cache.capacity == old(cache.capacity)
      ensures CacheView() == AfterLists(engine.tables.files, lists, key, old(CacheView()), cache.capacity)
      ensures match FirstProbeAll(engine.tables.files, lists, key)
        case Hit(v) => status == 0 && value == v
        case _ => status == -1 && value == valueOut
    {
      var candidates;
      candidates, order := engine.GetContainsFiles(key);
      lists := candidates;
      status, value := SearchLists(candidates, key, valueOut);
    }

    /** Get's outer loop: each level's candidates in turn, until one gives a hit or cannot be read. */
    method SearchLists(lists: seq<seq<File>>, key: Bytes, valueOut: Bytes) returns (status: int, value: Bytes)
      requires Probing()
      modifies cache, cache.Repr
      ensures Probing() && fresh(cache.Repr - old(cache.Repr))
      ensures cache.capacity == old(cache.capacity)
      ensures CacheView() == AfterLists(engine.tables.files, lists, key, old(CacheView()), cache.capacity)
      ensures match FirstProbeAll(engine.tables.files, lists, key)
        case Hit(v) => status == 0 && value == v
        case _ => status == -1 && value == valueOut
    {
      var i := 0;
      while i < |lists|
        invariant i <= |lists| && Probing() && fresh(cache.Repr - old(cache.Repr))
        invariant cache.capacity == old(cache.capacity)
        invariant FirstProbeAll(engine.tables.files, lists, key) == FirstProbeAll(engine.tables.files, lists[i..], key)
        invariant AfterLists(engine.tables.files, lists, key, old(CacheView()), cache.capacity)
          == AfterLists(engine.tables.files, lists[i..], key, CacheView(), cache.capacity)
      {
        assert lists[i..][1..] == lists[i + 1..];
        var p := SearchLevel(lists[i], key);
        if p.Hit? {
          return 0, p.value;
        }
        if p.Broken? {
          return -1, valueOut;
        }
        i := i + 1;
      }
      return -1, valueOut;
    }

    /** Get's inner loop: the candidates of one level, newest first, until a probe is not a miss. */
    method SearchLevel(fs: seq<File>, key: Bytes) returns (p: Probe)
      requires Probing()
      modifies cache, cache.Repr
      ensures Probing() && fresh(cache.Repr - old(cache.Repr))
      ensures p == FirstProbe(engine.tables.files, fs, key)
      ensures cache.capacity == old(cache.capacity)
      ensures CacheView() == AfterLevel(engine.tables.files, fs, key, old(CacheView()), cache.capacity)
    {
      var j := 0;
      while j < |fs|
        invariant j <= |fs| && Probing() && fresh(cache.Repr - old(cache.Repr))
        invariant cache.capacity == old(cache.capacity)
        invariant FirstProbe(engine.tables.files, fs, key) == FirstProbe(engine.tables.files, fs[j..], key)
        invariant AfterLevel(engine.tables.files, fs, key, old(CacheView()), cache.capacity)
          == AfterLevel(engine.tables.files, fs[j..], key, CacheView(), cache.capacity)
      {
        assert fs[j..][1..] == fs[j + 1..];
        p := ProbeFile(fs[j].fileId, key);
        if !p.Miss? {
          return;
        }
        j := j + 1;
      }
      p := Miss;
    }

    /**
     * One candidate of Get: the offset from the cached table of the file,
     * or, when the file is not cached, from its index loaded from the
     * mapping, which is then cached; a non-zero offset is read as a value.
     */
    method ProbeFile(id: int, key: Bytes) returns (p: Probe)
      requires Probing()
      modifies cache, cache.Repr
      ensures Probing() && fresh(cache.Repr - old(cache.Repr))
      ensures p == ProbeOf(engine.tables.files, id, key)
      ensures cache.capacity == old(cache.capacity)
      ensures CacheView() == AfterProbe(engine.tables.files, old(CacheView()), cache.capacity, id, key)
    {
      if id !in engine.tables.files {
        return Broken;
      }
      var offset := LookUp(id, key);
      if offset.None? {
        return Broken;
      }
      p := ReadOffset(id, offset.value);
    }

    /**
     * The key's offset in the file's index, through the cache: from the
     * cached table, or else from the index loaded from the mapping, which
     * is then cached; 0 when the key is not in the index, None when the
     * index does not parse.
     */
    method LookUp(id: int, key: Bytes) returns (offset: Option<uint32>)
      requires Probing() && id in engine.tables.files
      modifies cache, cache.Repr
      ensures Probing() && fresh(cache.Repr - old(cache.Repr))
      ensures cache.capacity == old(cache.capacity)
      ensures CacheView() == AfterProbe(engine.tables.files, old(CacheView()), cache.capacity, id, key)
      ensures match Loaded(engine.tables.files[id].mmap, map[])
        case None => offset.None?
        case Some(t) => offset == Some(if key in t then t[key] else 0)
    {
      ghost var files, c := engine.tables.files, CacheView();
      var off, ifExists := cache.Get(id, key);
      assert engine.tables.files == files && Probing();
      if ifExists {
        assert CacheView() == LookedUp(c, id, key);
        offset := Some(off);
      } else {
        assert CacheView() == c;
        offset := LoadAndCache(id, key);
      }
    }

    /** The end of a probe: offset 0 is a miss, another offset is read as a value. */
    method ReadOffset(id: int, offset: uint32) returns (p: Probe)
      requires id in engine.tables.files
      ensures p == if offset == 0 then Miss else
        match ValueAt(engine.tables.files[id].mmap, offset)
        case None => Broken
        case Some(v) => Hit(v)
    {
      if offset == 0 {
        return Miss;
      }
      var v := engine.GetValueByOffset(id, offset);
      if v.None? {
        return Broken;
      }
      return Hit(v.value);
    }

    /**
     * The miss path of the cache in Get: the file's index is loaded from its
     * mapping and cached, and the key's offset in it (0 when it is not
     * there) is returned; None when the index does not parse.
     */
    method LoadAndCache(id: int, key: Bytes) returns (offset: Option<uint32>)
      requires Probing() && id in engine.tables.files && id !in cache.tables
      modifies cache, cache.Repr
      ensures Probing() && fresh(cache.Repr - old(cache.Repr))
      ensures cache.capacity == old(cache.capacity)
      ensures match Loaded(engine.tables.files[id].mmap, map[])
        case None => offset.None? && CacheView() == old(CacheView())
        case Some(t) =>
          && offset == Some(if key in t then t[key] else 0)
          && CacheView() == Admitted(old(CacheView()), cache.capacity, id, t)
    {
      var loaded := engine.LoadKeyOffset(id, map[]);
      if loaded.None? {
        return None;
      }
      var t := loaded.value;
      offset := Some(if key in t then t[key] else 0);
      CacheTable(id, t);
    }

    /** Caching the index of a mapped file that is not cached yet keeps the cache coherent. */
    method CacheTable(id: int, t: Table)
      requires Probing() && id in engine.tables.files && id !in cache.tables
      requires Loaded(engine.tables.files[id].mmap, map[]) == Some(t)
      modifies cache, cache.Repr
      ensures Probing() && fresh(cache.Repr - old(cache.Repr))
      ensures cache.capacity == old(cache.capacity)
      ensures CacheView() == Admitted(old(CacheView()), cache.capacity, id, t)
    {
      ghost var before, ids, full := cache.tables, cache.ids, |cache.ids| == cache.capacity;
      ghost var files := engine.tables.files;
      cache.Set(id, t);
      assert engine.tables.files == files;
      if full {
        CoherentSet(before, Some(ids[|ids| - 1]), cache.tables, files, id, t);
      } else {
        CoherentSet(before, None, cache.tables, files, id, t);
      }
    }
  }
}
