/**
 * structure/cache.cpp: the LRU cache of per-segment key -> offset tables.
 *
 * Cached tables hang off nodes of a doubly linked list between two sentinel
 * nodes, head and tail, most recently used first; the hash map `m` finds a
 * segment's node by its file id. The ghost chain `nodes` lists head, the
 * cached nodes in list order and tail; `ids` and `tables` are the public view.
 */
module Caches {
  import opened Coding

  /** A segment's index: user key -> offset of its record in the segment. */
  type Table = map<Bytes, uint32>

  class Node {
    var key: int
    var value: Table
    var prev: Node?
    var next: Node?

    constructor ()
      ensures key == 0 && value == map[] && prev == null && next == null
    {
      key := 0;
      value := map[];
      prev := null;
      next := null;
    }
  }

  /** No two positions of s hold the same value. */
  predicate Distinct<T(==)>(s: seq<T>) {
    forall i, j :: 0 <= i < j < |s| ==> s[i] != s[j]
  }

  /** ns is a chain: distinct nodes, each linked forward to the next and back to the previous. */
  ghost predicate Chain(ns: seq<Node>)
    reads ns`next, ns`prev
  {
    && 2 <= |ns|
    && Distinct(ns)
    && (forall i {:trigger ns[i].next} :: 0 <= i < |ns| - 1 ==> ns[i].next == ns[i + 1])
    && (forall i {:trigger ns[i].prev} :: 0 < i < |ns| ==> ns[i].prev == ns[i - 1])
  }

  /** s with x taken out. */
  function Without(s: seq<int>, x: int): (r: seq<int>)
    ensures x !in r
    ensures forall y :: y in r <==> y in s && y != x
  {
    if s == [] then []
    else if s[0] == x then Without(s[1..], x)
    else [s[0]] + Without(s[1..], x)
  }

  /** The recency order after id is used: id first, the others in their order. */
  function MoveToFront(s: seq<int>, id: int): (r: seq<int>)
    ensures |r| >= 1 && r[0] == id
  {
    [id] + Without(s, id)
  }

  /** s with its element at k moved to the front. */
  function ToFront<T>(s: seq<T>, k: int): (r: seq<T>)
    requires 0 <= k < |s|
    ensures |r| == |s| && r[0] == s[k]
    ensures forall j :: 0 < j <= k ==> r[j] == s[j - 1]
    ensures forall j :: k < j < |s| ==> r[j] == s[j]
  {
    [s[k]] + s[..k] + s[k + 1..]
  }

  /** In a sequence without repetitions, taking out the value at k leaves the others in order. */
  lemma {:induction false} WithoutAt(s: seq<int>, k: int)
    requires Distinct(s) && 0 <= k < |s|
    ensures Without(s, s[k]) == s[..k] + s[k + 1..]
  {
    if k > 0 {
      assert Distinct(s[1..]) by {
        forall i, j | 0 <= i < j < |s| - 1
          ensures s[1..][i] != s[1..][j]
        {
          assert s[1..][i] == s[i + 1] && s[1..][j] == s[j + 1];
        }
      }
      WithoutAt(s[1..], k - 1);
      assert s[1..][k - 1] == s[k];
      assert s[1..][..k - 1] + s[1..][k..] == s[1..k] + s[k + 1..];
      assert s[..k] == [s[0]] + s[1..k];
    } else {
      WithoutAbsent(s[1..], s[0]);
    }
  }

  lemma {:induction false} WithoutAbsent(s: seq<int>, x: int)
    requires x !in s
    ensures Without(s, x) == s
  {
    if s != [] {
      WithoutAbsent(s[1..], x);
    }
  }

  /** Moving the element at k to the front keeps the elements, without repetitions. */
  lemma ToFrontKeepsIds(s: seq<int>, k: int)
    requires Distinct(s) && 0 <= k < |s|
    ensures Distinct(ToFront(s, k))
    ensures forall x :: x in ToFront(s, k) <==> x in s
  {
    var r := ToFront(s, k);
    forall i, j | 0 <= i < j < |r|
      ensures r[i] != r[j]
    {
      var a := if i == 0 then k else if i <= k then i - 1 else i;
      var b := if j <= k then j - 1 else j;
      assert r[i] == s[a] && r[j] == s[b];
    }
    assert s == s[..k] + [s[k]] + s[k + 1..];
  }

  /** Using a cached id is moving its position to the front. */
  lemma MoveToFrontAt(s: seq<int>, k: int)
    requires Distinct(s) && 0 <= k < |s|
    ensures MoveToFront(s, s[k]) == ToFront(s, k)
  {
    WithoutAt(s, k);
  }

  /**
   * DetachNode: the neighbours of node ns[k] are linked to each other. The
   * node keeps its own links; no key or table changes.
   */
  method DetachNode(node: Node, ghost ns: seq<Node>, ghost k: int)
    requires Chain(ns) && 0 < k < |ns| - 1 && ns[k] == node
    modifies node.prev`next, node.next`prev
    ensures Chain(ns[..k] + ns[k + 1..])
  {
    node.prev.next := node.next;
    node.next.prev := node.prev;
    ghost var r := ns[..k] + ns[k + 1..];
    assert forall i :: 0 <= i < |r| ==> r[i] == ns[if i < k then i else i + 1];
  }

  /**
   * The bookkeeping of the cache as values: each cached id once, in recency
   * order, and at position i + 1 of the chain the node m holds for ids[i].
   */
  ghost predicate Indexed(ns: seq<Node>, ids: seq<int>, m: map<int, Node>, tables: map<int, Table>) {
    && |ns| == |ids| + 2
    && Distinct(ids)
    && (forall id :: id in m <==> id in ids)
    && (forall id :: id in tables <==> id in ids)
    && (forall i :: 0 <= i < |ids| ==> ids[i] in m && ns[i + 1] == m[ids[i]])
  }

  /** Each node m holds carries its id and that id's table. */
  ghost predicate Holds(m: map<int, Node>, tables: map<int, Table>)
    reads m.Values`key, m.Values`value
  {
    forall id :: id in m ==> id in tables && m[id].key == id && m[id].value == tables[id]
  }

  /** A new node carrying id and table t extends Holds. */
  lemma HoldsAdmit(m: map<int, Node>, tables: map<int, Table>, id: int, node: Node, t: Table)
    requires Holds(m, tables) && node !in m.Values
    requires node.key == id && node.value == t
    ensures Holds(m[id := node], tables[id := t])
  {
  }

  /** The node of a cached id gets table t; the other nodes keep theirs. */
  method Retable(node: Node, ghost m: map<int, Node>, ghost tables: map<int, Table>, ghost id: int, t: Table)
    requires Holds(m, tables) && id in m && m[id] == node
    modifies node`value
    ensures Holds(m, tables[id := t])
  {
    node.value := t;
  }

  /** A cached id has a position, and its node sits there in the chain. */
  lemma NodeAt(ns: seq<Node>, ids: seq<int>, m: map<int, Node>, tables: map<int, Table>, id: int) returns (i: int)
    requires Indexed(ns, ids, m, tables) && id in m
    ensures 0 <= i < |ids| && ids[i] == id && ns[i + 1] == m[id]
  {
    i :| 0 <= i < |ids| && ids[i] == id;
  }

  /** Using ids[i] moves it and its node to the front. */
  lemma IndexedTouch(ns: seq<Node>, ids: seq<int>, m: map<int, Node>, tables: map<int, Table>, i: int)
    requires Indexed(ns, ids, m, tables) && 0 <= i < |ids|
    ensures Indexed(Moved(ns, i + 1), ToFront(ids, i), m, tables)
  {
    ToFrontKeepsIds(ids, i);
    var ns', ids' := Moved(ns, i + 1), ToFront(ids, i);
    forall j | 0 <= j < |ids'|
      ensures ids'[j] in m && ns'[j + 1] == m[ids'[j]]
    {
      if j == 0 {
      } else if j <= i {
        assert ns'[j + 1] == ns[j] && ids'[j] == ids[j - 1];
      } else {
        assert ns'[j + 1] == ns[j + 1] && ids'[j] == ids[j];
      }
    }
  }

  /** Dropping the least recently used id drops the node before tail. */
  lemma IndexedEvict(ns: seq<Node>, ids: seq<int>, m: map<int, Node>, tables: map<int, Table>)
    requires Indexed(ns, ids, m, tables) && 0 < |ids|
    ensures
      var last := ids[|ids| - 1];
      Indexed(ns[..|ns| - 2] + ns[|ns| - 1..], ids[..|ids| - 1], m - {last}, tables - {last})
  {
    var ids' := ids[..|ids| - 1];
    var last := ids[|ids| - 1];
    assert ids == ids' + [last];
  }

  /** A new id with a new node goes to the front. */
  lemma IndexedAdmit(ns: seq<Node>, ids: seq<int>, m: map<int, Node>, tables: map<int, Table>,
                     id: int, n: Node, t: Table)
    requires Indexed(ns, ids, m, tables) && id !in tables
    ensures Indexed([ns[0], n] + ns[1..], [id] + ids, m[id := n], tables[id := t])
  {
    var ns', ids' := [ns[0], n] + ns[1..], [id] + ids;
    forall j | 0 < j < |ids'|
      ensures ids'[j] in m && ns'[j + 1] == m[ids'[j]] && ids'[j] != id
    {
      assert ns'[j + 1] == ns[j] && ids'[j] == ids[j - 1];
    }
  }

  class LRUCache {
    var m: map<int, Node>
    var head: Node
    var tail: Node
    var capacity: int
    var count: int
    /** head, the cached nodes from most to least recently used, tail. */
    ghost var nodes: seq<Node>
    /** The cached file ids, most recently used first. */
    ghost var ids: seq<int>
    /** The cached table of each id. */
    ghost var tables: map<int, Table>
    /** Every node the cache has allocated. */
    ghost var Repr: set<Node>

    /**
     * The chain runs from head to tail through the node of each cached id,
     * in recency order; each node carries its id and table; count is the
     * number of cached ids and, for a positive capacity, never exceeds it.
     */
    ghost predicate Valid()
      reads this, Repr
    {
      Bookkept() && Chain(nodes)
    }

    /** Valid but for the links of the chain. */
    ghost predicate Bookkept()
      reads this, Repr
    {
      && (forall i :: 0 <= i < |nodes| ==> nodes[i] in Repr)
      && m.Values <= Repr
      && Indexed(nodes, ids, m, tables)
      && Holds(m, tables)
      && nodes[0] == head && nodes[|nodes| - 1] == tail
      && count == |ids|
      && capacity != 0 && (capacity > 0 ==> count <= capacity)
    }

    /**
     * An empty cache of the given capacity. (With capacity 0 the first Set
     * evicts from an empty list and follows head's null prev pointer.)
     */
    constructor (capacity: int)
      requires capacity != 0
      ensures Valid() && fresh(Repr)
      ensures this.capacity == capacity && ids == [] && tables == map[]
    {
      this.capacity := capacity;
      count := 0;
      m := map[];
      var h := new Node();
      var t := new Node();
      h.next := t;
      t.prev := h;
      head, tail := h, t;
      nodes, ids, tables, Repr := [h, t], [], map[], {h, t};
    }

    /** Clear: every table is dropped and the list is empty again. */
    method Clear()
      requires Valid()
      modifies this, Repr
      ensures Valid() && Repr == old(Repr)
      ensures ids == [] && tables == map[] && capacity == old(capacity)
    {
      m := map[];
      count := 0;
      head.next := tail;
      tail.prev := head;
      nodes, ids, tables := [head, tail], [], map[];
    }

    /**
     * InsertToFront: node, not yet in the chain, goes right after head. Only
     * links change.
     */
    method InsertToFront(node: Node, ghost ns: seq<Node>)
      requires Chain(ns) && ns[0] == head && node !in ns
      modifies node`next, node`prev, head`next, head.next`prev
      ensures Chain([head, node] + ns[1..])
    {
      node.next := head.next;
      node.prev := head;
      head.next := node;
      node.next.prev := node;
      ghost var r := [head, node] + ns[1..];
      assert forall i :: 2 <= i < |r| ==> r[i] == ns[i - 1];
    }

    /**
     * Get: the offset of keyStr in the table of segment id. ifExists says
     * whether that table is cached; only a hit makes id the most recently used.
     */
    method Get(id: int, keyStr: Bytes) returns (offset: uint32, ifExists: bool)
      requires Valid()
      modifies this, Repr
      ensures Valid() && Repr == old(Repr)
      ensures ifExists <==> id in old(tables)
      ensures tables == old(tables) && capacity == old(capacity)
      ensures if ifExists && keyStr in tables[id]
              then offset == tables[id][keyStr] && ids == MoveToFront(old(ids), id)
              else offset == 0 && ids == old(ids)
    {
      offset := 0;
      ifExists := false;
      if id in m {
        ifExists := true;
        var node := m[id];
        if keyStr in node.value {
          offset := node.value[keyStr];
          ghost var i := NodeAt(nodes, ids, m, tables, id);
          MoveToFrontAt(ids, i);
          Promote(node, i);
        }
      }
    }

    /**
     * Set: the table of segment id becomes the given one and id the most
     * recently used. A new id in a full cache first evicts the least recently
     * used one.
     */
    method Set(id: int, table: Table)
      requires Valid()
      modifies this, Repr
      ensures Valid() && fresh(Repr - old(Repr))
      ensures capacity == old(capacity)
      ensures id in old(tables) ==>
        ids == MoveToFront(old(ids), id) && tables == old(tables)[id := table]
      ensures id !in old(tables) && |old(ids)| == capacity ==>
        && ids == [id] + old(ids)[..|old(ids)| - 1]
        && tables == (old(tables) - {old(ids)[|old(ids)| - 1]})[id := table]
      ensures id !in old(tables) && |old(ids)| != capacity ==>
        ids == [id] + old(ids) && tables == old(tables)[id := table]
    {
      if id !in m {
        SetNew(id, table);
      } else {
        SetCached(id, table);
      }
    }

    /** Set's branch for an id not cached: evict if full, then a new node goes to the front. */
    method SetNew(id: int, table: Table)
      requires Valid() && id !in tables
      modifies this, Repr
      ensures Valid() && fresh(Repr - old(Repr))
      ensures capacity == old(capacity)
      ensures |old(ids)| == capacity ==>
        && ids == [id] + old(ids)[..|old(ids)| - 1]
        && tables == (old(tables) - {old(ids)[|old(ids)| - 1]})[id := table]
      ensures |old(ids)| != capacity ==>
        ids == [id] + old(ids) && tables == old(tables)[id := table]
    {
      var node := new Node();
      if count == capacity {
        RemoveLRUNode();
      }
      Admit(node, id, table);
    }

    /** Set's branch for a cached id: its node gets the table and moves to the front. */
    method SetCached(id: int, table: Table)
      requires Valid() && id in tables
      modifies this, Repr
      ensures Valid() && Repr == old(Repr)
      ensures capacity == old(capacity)
      ensures ids == MoveToFront(old(ids), id) && tables == old(tables)[id := table]
    {
      var node := m[id];
      ghost var i := NodeAt(nodes, ids, m, tables, id);
      MoveToFrontAt(ids, i);
      Revalue(node, i, table);
      Promote(node, i);
    }

    /** The rest of Set's new-id branch: the node, carrying its id and table, goes into m and to the front. */
    method Admit(node: Node, id: int, table: Table)
      requires Valid() && node !in Repr && id !in tables
      requires capacity > 0 ==> count < capacity
      modifies this, Repr, node
      ensures Valid() && Repr == old(Repr) + {node}
      ensures ids == [id] + old(ids) && tables == old(tables)[id := table]
      ensures capacity == old(capacity)
    {
      node.key, node.value := id, table;
      InsertToFront(node, nodes);
      Enroll(node);
    }

    /** Admit after the links: m, count and the ghost view take in the node. */
    method Enroll(node: Node)
      requires Bookkept() && Chain([head, node] + nodes[1..]) && node !in Repr && node.key !in tables
      requires capacity > 0 ==> count < capacity
      modifies this
      ensures Valid() && Repr == old(Repr) + {node}
      ensures ids == [node.key] + old(ids) && tables == old(tables)[node.key := node.value]
      ensures capacity == old(capacity)
    {
      ghost var ns, ids0, m0, ts, R0 := nodes, ids, m, tables, Repr;
      ghost var id, t := node.key, node.value;
      IndexedAdmit(ns, ids0, m0, ts, id, node, t);
      HoldsAdmit(m0, ts, id, node, t);
      nodes, ids, tables, Repr := [head, node] + ns[1..], [id] + ids0, ts[id := t], R0 + {node};
      m, count := m[node.key := node], count + 1;
    }

    /** RemoveLRUNode: the node before tail, the least recently used, leaves the list and m. */
    method RemoveLRUNode()
      requires Valid() && count > 0
      modifies this, nodes`next, nodes`prev
      ensures Valid() && Repr == old(Repr)
      ensures ids == old(ids)[..|old(ids)| - 1]
      ensures tables == old(tables) - {old(ids)[|old(ids)| - 1]}
      ensures capacity == old(capacity)
    {
      var node := tail.prev;
      assert node == nodes[|nodes| - 2];
      DetachNode(node, nodes, |nodes| - 2);
      Forget(node);
    }

    /** RemoveLRUNode after the links: m, count and the ghost view let go of the node. */
    method Forget(node: Node)
      requires Bookkept() && count > 0 && node == nodes[|nodes| - 2]
      requires Chain(nodes[..|nodes| - 2] + nodes[|nodes| - 1..])
      modifies this
      ensures Valid() && Repr == old(Repr)
      ensures ids == old(ids)[..|old(ids)| - 1]
      ensures tables == old(tables) - {old(ids)[|old(ids)| - 1]}
      ensures capacity == old(capacity)
    {
      ghost var k := |nodes| - 2;
      ghost var last := ids[k - 1];
      assert node == m[last];
      IndexedEvict(nodes, ids, m, tables);
      nodes, ids, tables := nodes[..k] + nodes[k + 1..], ids[..k - 1], tables - {last};
      m := m - {node.key};
      count := count - 1;
    }

    /** Set's path for a cached id: the node of ids[i] gets the table t; the order stays. */
    method Revalue(node: Node, ghost i: int, t: Table)
      requires Valid() && 0 <= i < |ids| && node == nodes[i + 1]
      modifies this, node`value
      ensures Valid() && Repr == old(Repr)
      ensures nodes == old(nodes) && ids == old(ids) && tables == old(tables)[old(ids)[i] := t]
      ensures capacity == old(capacity)
    {
      ghost var ts := tables;
      tables := ts[ids[i] := t];
      Retable(node, m, ts, ids[i], t);
    }

    /** The node of ids[i] moves to the front: Get's hit path and Set's path for a cached id. */
    method Promote(node: Node, ghost i: int)
      requires Valid() && 0 <= i < |ids| && node == nodes[i + 1]
      modifies this, nodes`next, nodes`prev
      ensures Valid() && Repr == old(Repr)
      ensures ids == ToFront(old(ids), i) && tables == old(tables)
      ensures capacity == old(capacity)
    {
      Relink(node, nodes, i + 1);
      Reorder(i);
    }

    /** Promote after the links: the ghost view moves ids[i] to the front. */
    ghost method Reorder(i: int)
      requires Bookkept() && 0 <= i < |ids| && Chain(Moved(nodes, i + 1))
      modifies this
      ensures Valid() && Repr == old(Repr)
      ensures ids == ToFront(old(ids), i) && tables == old(tables)
      ensures capacity == old(capacity)
    {
      ghost var ns, ids0 := nodes, ids;
      IndexedTouch(ns, ids0, m, tables, i);
      nodes, ids := Moved(ns, i + 1), ToFront(ids0, i);
    }

    /** The links of Promote: node k of the chain moves to just behind head. */
    method Relink(node: Node, ghost ns: seq<Node>, ghost k: int)
      requires Chain(ns) && ns[0] == head && 0 < k < |ns| - 1 && node == ns[k]
      modifies ns`next, ns`prev
      ensures Chain(Moved(ns, k))
    {
      DetachNode(node, ns, k);
      ghost var rest := ns[..k] + ns[k + 1..];
      assert head.next == rest[1] == ns[if k == 1 then 2 else 1];
      InsertToFront(node, rest);
      assert [head, node] + rest[1..] == Moved(ns, k);
    }
  }

  /** The chain after its node k moves to just behind the head. */
  function Moved<T>(ns: seq<T>, k: int): (r: seq<T>)
    requires 0 < k < |ns|
    ensures |r| == |ns|
    ensures r[0] == ns[0] && r[1] == ns[k]
    ensures forall j :: 1 < j <= k ==> r[j] == ns[j - 1]
    ensures forall j :: k < j < |ns| ==> r[j] == ns[j]
  {
    [ns[0], ns[k]] + ns[1..k] + ns[k + 1..]
  }

  /** n - 1 down to 0: the recency order after setting segments 0 .. n - 1 in turn. */
  function Down(n: nat): (r: seq<int>)
    ensures |r| == n && forall j :: 0 <= j < n ==> r[j] == n - 1 - j
    ensures forall id :: id in r <==> 0 <= id < n
  {
    if n == 0 then [] else [n - 1] + Down(n - 1)
  }

  /** The test's first five Sets: five cached tables, segment 0 the least recently used. */
  method FilledCache(table: Table) returns (cache: LRUCache)
    ensures cache.Valid() && fresh(cache.Repr) && cache.capacity == 5
    ensures cache.ids == [4, 3, 2, 1, 0]
    ensures forall id :: id in cache.tables <==> 0 <= id < 5
    ensures forall id :: id in cache.tables ==> cache.tables[id] == table
  {
    cache := new LRUCache(5);
    var i := 0;
    while i < 5
      invariant 0 <= i <= 5
      invariant cache.Valid() && fresh(cache.Repr) && cache.capacity == 5
      invariant cache.ids == Down(i)
      invariant forall id :: id in cache.tables ==> cache.tables[id] == table
    {
      cache.Set(i, table);
      i := i + 1;
    }
    assert Down(5) == [4, 3, 2, 1, 0];
  }

  /**
   * The eviction scenario of the cache's unit test: five tables fill a cache
   * of capacity 5, segment 0 is read before a sixth is set, so segment 1,
   * now the least recently used, is the one evicted.
   */
  method EvictionScenario() returns (offset0: uint32, offset1: uint32)
    ensures offset0 == 1 && offset1 == 0
  {
    var keyStr: Bytes := [104, 111, 112, 101];
    var table: Table := map[keyStr := 1];
    var cache := SixthSet(keyStr, table);
    var found0, found1;
    offset0, found0 := cache.Get(0, keyStr);
    offset1, found1 := cache.Get(1, keyStr);
  }

  /** The test's loop up to i == 5: segment 0, read, becomes the most recently used. */
  method ZeroRead(keyStr: Bytes, table: Table) returns (cache: LRUCache)
    requires keyStr in table
    ensures cache.Valid() && fresh(cache.Repr) && cache.capacity == 5
    ensures cache.ids == [0, 4, 3, 2, 1]
    ensures forall id :: id in cache.tables ==> cache.tables[id] == table
  {
    cache := FilledCache(table);
    MoveToFrontAt(cache.ids, 4);
    var _, _ := cache.Get(0, keyStr);
  }

  /** The test's last Set: segment 5 goes into the full cache, evicting segment 1. */
  method SixthSet(keyStr: Bytes, table: Table) returns (cache: LRUCache)
    requires keyStr in table
    ensures cache.Valid() && fresh(cache.Repr)
    ensures cache.ids == [5, 0, 4, 3, 2]
    ensures forall id :: id in cache.tables ==> cache.tables[id] == table
  {
    cache := ZeroRead(keyStr, table);
    ghost var before := cache.ids;
    assert before[..4] == [0, 4, 3, 2];
    cache.Set(5, table);
  }


}
