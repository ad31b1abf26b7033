/**
 * structure/skip_list.h: the skip list of records the storage buffer writes into.
 *
 * Nodes live in a pool: a node is a handle indexing `keys` (the record it
 * holds) and `next` (its tower of links); handle 0 is the head, Nil the null
 * pointer. Each node's memory is still taken from the arena, and `places`
 * keeps where. The ghost fields relate the pool to the abstract content, as
 * SkipListSpec.Inv states.
 */
module SkipLists {
  import opened Coding
  import opened Utils
  import opened KeyComparator
  import opened RandomGen
  import opened Arena
  import opened SkipListSpec

  /** sizeof(Node) + sizeof(void*) * (height - 1): a key pointer and `height` links. */
  function NodeSize(height: int): int {
    16 + 8 * (height - 1)
  }

  /**
   * RandomHeight from `height` on: the height reached and the seed left
   * behind. Each step draws once and grows while the draw is divisible by 4;
   * at MaxHeight nothing more is drawn.
   */
  function Tower(seed: int, height: int): (r: (int, int))
    ensures height <= r.0
    ensures height <= MaxHeight ==> r.0 <= MaxHeight
    decreases MaxHeight - height
  {
    if height >= MaxHeight then (height, seed)
    else if NextSeed(seed) % 4 == 0 then Tower(NextSeed(seed), height + 1)
    else (height, NextSeed(seed))
  }

  /**
   * The height is one plus the number of leading draws divisible by 4: all
   * draws before the last are, and the last is not unless MaxHeight stopped it.
   */
  lemma TowerDraws(seed: int, height: int)
    requires 1 <= height <= MaxHeight
    ensures var draws := Outputs(seed, Tower(seed, height).0 - height);
              forall i :: 0 <= i < |draws| ==> draws[i] % 4 == 0
    ensures var t := Tower(seed, height).0;
              t < MaxHeight ==> Outputs(seed, t - height + 1)[t - height] % 4 != 0
  {
    TowerGrows(seed, height);
    TowerStops(seed, height);
  }

  /** Every draw before the last one is divisible by 4. */
  lemma {:induction false} TowerGrows(seed: int, height: int)
    requires 1 <= height <= MaxHeight
    ensures var draws := Outputs(seed, Tower(seed, height).0 - height);
              forall i :: 0 <= i < |draws| ==> draws[i] % 4 == 0
    decreases MaxHeight - height
  {
    if height < MaxHeight {
      var s1 := NextSeed(seed);
      if s1 % 4 == 0 {
        TowerGrows(s1, height + 1);
        var t := Tower(s1, height + 1).0;
        assert Tower(seed, height).0 == t;
        DrawsCons(seed, t - height, Outputs(s1, t - height - 1));
      }
    }
  }

  /** The last draw is not divisible by 4, unless MaxHeight was reached. */
  lemma {:induction false} TowerStops(seed: int, height: int)
    requires 1 <= height <= MaxHeight
    ensures var t := Tower(seed, height).0;
              t < MaxHeight ==> Outputs(seed, t - height + 1)[t - height] % 4 != 0
    decreases MaxHeight - height
  {
    if height < MaxHeight {
      var s1 := NextSeed(seed);
      if s1 % 4 == 0 {
        TowerStops(s1, height + 1);
        var t := Tower(s1, height + 1).0;
        assert Tower(seed, height).0 == t;
        OutputsShift(seed, t - height);
      } else {
        assert Tower(seed, height).0 == height;
        assert Outputs(seed, 1) == [s1] + Outputs(s1, 0);
      }
    }
  }

  /** The draws from seed are the first draw followed by the draws from the next seed. */
  lemma DrawsCons(seed: int, n: nat, rest: seq<int>)
    requires 1 <= n && NextSeed(seed) % 4 == 0 && rest == Outputs(NextSeed(seed), n - 1)
    requires forall i :: 0 <= i < |rest| ==> rest[i] % 4 == 0
    ensures forall i :: 0 <= i < n ==> Outputs(seed, n)[i] % 4 == 0
  {
    var draws := Outputs(seed, n);
    forall i | 0 <= i < n
      ensures draws[i] % 4 == 0
    {
      if i > 0 {
        assert draws[i] == rest[i - 1];
      }
    }
  }

  /** Draw n from seed is draw n - 1 from the next seed. */
  lemma OutputsShift(seed: int, n: nat)
    requires 1 <= n
    ensures Outputs(seed, n + 1)[n] == Outputs(NextSeed(seed), n)[n - 1]
  {
    assert Outputs(seed, n + 1) == [NextSeed(seed)] + Outputs(NextSeed(seed), n);
  }

  /** A fresh tower: `height` links, none set yet. */
  function NilLinks(height: int): (r: seq<int>)
    requires 0 <= height
    ensures |r| == height && forall l :: 0 <= l < height ==> r[l] == Nil
  {
    seq(height, _ => Nil)
  }

  /** Insert's loop over the new levels: prev[l] becomes the head for from <= l < to. */
  method PointToHead(prev: seq<int>, from: int, to: int) returns (r: seq<int>)
    requires 0 <= from <= to <= |prev|
    ensures |r| == |prev|
    ensures forall l :: 0 <= l < |r| ==> r[l] == if from <= l < to then 0 else prev[l]
  {
    r := prev;
    var i := from;
    while i < to
      invariant from <= i <= to && |r| == |prev|
      invariant forall l :: 0 <= l < |r| ==> r[l] == if from <= l < i then 0 else prev[l]
    {
      r := r[i := 0];
      i := i + 1;
    }
  }

  /**
   * Insert's linking loop for the new node n, the last handle: at each level
   * l below h it takes over prev[l]'s link and prev[l] links to it.
   */
  method LinkTower(next: seq<seq<int>>, prev: seq<int>, h: int) returns (links: seq<seq<int>>)
    requires 1 <= |next| && |next[|next| - 1]| == h && h <= |prev|
    requires forall l :: 0 <= l < h ==> 0 <= prev[l] < |next| - 1 && l < |next[prev[l]]|
    ensures Spliced(next[..|next| - 1], prev, h, links)
  {
    var n := |next| - 1;
    links := next;
    var i := 0;
    while i < h
      invariant 0 <= i <= h
      invariant |links| == n + 1 && |links[n]| == h
      invariant forall m :: 0 <= m < n ==> |links[m]| == |next[m]|
      invariant forall m, l :: 0 <= m < n && 0 <= l < |next[m]| ==>
                  links[m][l] == if l < i && m == prev[l] then n else next[m][l]
      invariant forall l :: 0 <= l < i ==> links[n][l] == next[prev[l]][l]
    {
      links := links[n := links[n][i := links[prev[i]][i]]];
      links := links[prev[i] := links[prev[i]][i := n]];
      i := i + 1;
    }
    ghost var front := next[..n];
    assert forall m :: 0 <= m < n ==> front[m] == next[m];
    assert Spliced(front, prev, h, links);
  }

  /** KeyIsAfterNode: n is a node whose record sorts before key. */
  function KeyIsAfterNode(keys: seq<Bytes>, key: Bytes, n: int): (b: bool)
    requires HasKey(key) && (n == Nil || (0 <= n < |keys| && HasKey(keys[n])))
    ensures b <==> n != Nil && Less(ExtractUserKey(keys[n]), ExtractUserKey(key))
  {
    n != Nil && CompareEntries(keys[n], key) < 0
  }

  /**
   * FindGreaterOrEqual over the pool: the first node whose key is not before
   * key's, or Nil; prev[l] is the last node before that place that reaches
   * level l.
   */
  method FindGreaterOrEqual(keys: seq<Bytes>, next: seq<seq<int>>, maxHeight: int, ghost order: seq<int>,
                            ghost pos: seq<int>, ghost elems: seq<Bytes>, ghost hs: seq<int>, key: Bytes)
    returns (found: int, prev: seq<int>)
    requires Inv(keys, next, maxHeight, order, pos, elems, hs) && HasKey(key)
    ensures var i := LowerBound(Keys(elems), UserKey(key));
              found == if i == |elems| then Nil else order[i]
    ensures |prev| == MaxHeight
    ensures forall l :: 0 <= l < maxHeight ==>
              0 <= prev[l] < |keys| && LastBefore(hs, l, pos[prev[l]], LowerBound(Keys(elems), UserKey(key)))
  {
    ghost var lb := LowerBound(Keys(elems), UserKey(key));
    var x := 0;
    var level := maxHeight - 1;
    prev := [0, 0, 0, 0, 0, 0, 0, 0, 0, 0, 0, 0];
    while true
      invariant 0 <= level < maxHeight && |prev| == MaxHeight
      invariant 0 <= x < |keys| && (x == 0 || hs[pos[x]] > level) && pos[x] < lb
      invariant forall l :: level < l < maxHeight ==>
                  0 <= prev[l] < |keys| && LastBefore(hs, l, pos[prev[l]], lb)
      decreases level, |hs| - pos[x]
    {
      SearchKey(keys, next, maxHeight, order, pos, elems, hs, x, level, key, lb);
      var nx := next[x][level];
      if KeyIsAfterNode(keys, key, nx) {
        x := nx;
      } else {
        PrevStep(hs, pos, prev, x, level, maxHeight, lb);
        prev := prev[level := x];
        if level == 0 {
          found := nx;
          return;
        }
        level := level - 1;
      }
    }
  }

  /** FindLessThan over the pool: the last node whose key is before key's, or the head. */
  method FindLessThan(keys: seq<Bytes>, next: seq<seq<int>>, maxHeight: int, ghost order: seq<int>,
                      ghost pos: seq<int>, ghost elems: seq<Bytes>, ghost hs: seq<int>, key: Bytes)
    returns (x: int)
    requires Inv(keys, next, maxHeight, order, pos, elems, hs) && HasKey(key)
    ensures var i := LowerBound(Keys(elems), UserKey(key));
              x == if i == 0 then 0 else order[i - 1]
  {
    ghost var lb := LowerBound(Keys(elems), UserKey(key));
    x := 0;
    var level := maxHeight - 1;
    while true
      invariant 0 <= level < maxHeight
      invariant 0 <= x < |keys| && (x == 0 || hs[pos[x]] > level) && pos[x] < lb
      decreases level, |hs| - pos[x]
    {
      SearchKey(keys, next, maxHeight, order, pos, elems, hs, x, level, key, lb);
      var nx := next[x][level];
      if nx == Nil || CompareEntries(keys[nx], key) >= 0 {
        if level == 0 {
          return;
        }
        level := level - 1;
      } else {
        x := nx;
      }
    }
  }

  /** FindLast over the pool: the last node in key order, or the head when the list is empty. */
  method FindLast(keys: seq<Bytes>, next: seq<seq<int>>, maxHeight: int, ghost order: seq<int>,
                  ghost pos: seq<int>, ghost elems: seq<Bytes>, ghost hs: seq<int>)
    returns (x: int)
    requires Inv(keys, next, maxHeight, order, pos, elems, hs)
    ensures x == if |elems| == 0 then 0 else order[|elems| - 1]
  {
    ghost var lb := |order|;
    x := 0;
    var level := maxHeight - 1;
    while true
      invariant 0 <= level < maxHeight
      invariant 0 <= x < |keys| && (x == 0 || hs[pos[x]] > level) && pos[x] < lb
      decreases level, |hs| - pos[x]
    {
      SearchStep(keys, next, maxHeight, order, pos, elems, hs, x, level, lb);
      var nx := next[x][level];
      if nx == Nil {
        SearchStop(keys, next, maxHeight, order, pos, elems, hs, x, level, lb);
        if level == 0 {
          return;
        }
        level := level - 1;
      } else {
        x := nx;
      }
    }
  }

  class SkipList {
    var keys: seq<Bytes>
    var next: seq<seq<int>>
    var places: seq<Pointer>
    var maxHeight: int
    const rnd: Random
    const memory: Memory
    ghost var order: seq<int>
    ghost var pos: seq<int>
    ghost var elems: seq<Bytes>
    ghost var hs: seq<int>

    /** The pool represents elems, and every node sits at an aligned arena address. */
    ghost predicate Ordered()
      reads this
    {
      && Inv(keys, next, maxHeight, order, pos, elems, hs)
      && |places| == |keys|
      && forall n :: 0 <= n < |places| ==> places[n].At? && Aligned(places[n])
    }

    ghost predicate Valid()
      reads this, rnd, memory
    {
      Ordered() && rnd.Valid() && memory.Valid()
    }

    /** An empty list: a head of full height linking to nothing, height 1, seed 0xdeadbeef. */
    constructor (memory: Memory)
      requires memory.Valid()
      modifies memory
      ensures Valid() && fresh(rnd)
      ensures this.memory == memory
      ensures elems == [] && maxHeight == 1
      ensures rnd.seed == InitialSeed(0xdead_beef)
    {
      var place := memory.AllocateAligned(NodeSize(MaxHeight));
      keys := [[48, 48, 48, 48, 48]];
      next := [seq(MaxHeight, _ => Nil)];
      places := [place];
      maxHeight := 1;
      rnd := new Random(0xdead_beef);
      this.memory := memory;
      order, pos, elems, hs := [], [-1], [], [];
    }

    /** Equal: the comparator finds the two records equal, that is their user keys are. */
    function Equal(a: Bytes, b: Bytes): (r: bool)
      requires HasKey(a) && HasKey(b)
      ensures r <==> ExtractUserKey(a) == ExtractUserKey(b)
    {
      CompareEntries(a, b) == 0
    }

    /** RandomHeight: 1, plus one for every draw divisible by 4, up to MaxHeight. */
    method RandomHeight() returns (height: int)
      requires rnd.Valid()
      modifies rnd
      ensures rnd.Valid()
      ensures (height, rnd.seed as int) == Tower(old(rnd.seed), 1)
      ensures 1 <= height <= MaxHeight
    {
      height := 1;
      while height < MaxHeight
        invariant 1 <= height <= MaxHeight && rnd.Valid()
        invariant Tower(rnd.seed, height) == Tower(old(rnd.seed), 1)
        decreases MaxHeight - height
      {
        var r := rnd.Next();
        if r % 4 != 0 {
          break;
        }
        height := height + 1;
      }
    }

    /**
     * NewNode: the arena memory for a node of `height` links, aligned for
     * pointers. Insert adds the node itself to the pool.
     */
    method NewNode(height: int) returns (place: Pointer)
      requires memory.Valid() && 1 <= height <= MaxHeight
      modifies memory
      ensures memory.Valid()
      ensures place.At? && Aligned(place)
      ensures memory.regions == old(memory.regions) + [Region(place.block, place.offset, NodeSize(height))]
    {
      place := memory.AllocateAligned(NodeSize(height));
    }

    /**
     * Insert: a record whose user key is present replaces that node's record;
     * otherwise a node of random height is spliced in at every level it reaches.
     */
    method Insert(key: Bytes)
      requires Valid() && HasKey(key)
      modifies this, rnd, memory
      ensures Valid()
      ensures elems == InsertSorted(old(elems), key)
      ensures old(maxHeight) <= maxHeight <= MaxHeight
      ensures ContainsKey(old(elems), key) ==>
                |keys| == |old(keys)| && maxHeight == old(maxHeight) && rnd.seed == old(rnd.seed)
      ensures !ContainsKey(old(elems), key) ==>
                && |keys| == |old(keys)| + 1
                && var h := Tower(old(rnd.seed), 1).0;
                   maxHeight == if h > old(maxHeight) then h else old(maxHeight)
    {
      ghost var ip := LowerBound(Keys(elems), UserKey(key));
      var x, prev := FindGreaterOrEqual(keys, next, maxHeight, order, pos, elems, hs, key);
      FoundAt(keys, next, maxHeight, order, pos, elems, hs, x, key);
      if x != Nil && Equal(keys[x], key) {
        Replace(x, key);
      } else {
        Add(key, prev, ip);
      }
    }

    /** Insert for an absent user key: draws a height, takes memory and links a new node. */
    method Add(key: Bytes, prev: seq<int>, ghost ip: nat)
      requires Valid() && HasKey(key) && !ContainsKey(elems, key)
      requires ip == LowerBound(Keys(elems), UserKey(key))
      requires |prev| == MaxHeight
      requires forall l :: 0 <= l < maxHeight ==> 0 <= prev[l] < |keys| && LastBefore(hs, l, pos[prev[l]], ip)
      modifies this, rnd, memory
      ensures Valid()
      ensures elems == InsertSorted(old(elems), key)
      ensures old(maxHeight) <= maxHeight <= MaxHeight
      ensures |keys| == |old(keys)| + 1
      ensures var h := Tower(old(rnd.seed), 1).0;
                maxHeight == if h > old(maxHeight) then h else old(maxHeight)
    {
      var height := RandomHeight();
      TowerDraws(old(rnd.seed), 1);
      var place := NewNode(height);
      LinkNode(key, prev, height, place, ip);
    }

    /** Insert for a present user key: node x now holds the new record. */
    method Replace(x: int, key: Bytes)
      requires Ordered() && HasKey(key)
      requires 1 <= x < |keys| && HasKey(keys[x]) && ExtractUserKey(keys[x]) == ExtractUserKey(key)
      modifies this
      ensures Ordered()
      ensures elems == InsertSorted(old(elems), key)
      ensures keys == old(keys)[x := key] && next == old(next) && maxHeight == old(maxHeight)
    {
      OverwriteKeepsInv(keys, next, maxHeight, order, pos, elems, hs, x, key);
      keys, elems := keys[x := key], elems[pos[x] := key];
    }

    /**
     * The rest of Insert for an absent key: raises the list's height when the
     * new tower is taller than every other, then splices the new node, held at
     * place, in at every level below its height. (The source takes the node's
     * memory after raising the height; the two steps are independent.)
     */
    method LinkNode(key: Bytes, prev: seq<int>, height: int, place: Pointer, ghost ip: nat)
      requires Ordered() && HasKey(key) && !ContainsKey(elems, key)
      requires ip == LowerBound(Keys(elems), UserKey(key))
      requires |prev| == MaxHeight && 1 <= height <= MaxHeight
      requires forall l :: 0 <= l < maxHeight ==> 0 <= prev[l] < |keys| && LastBefore(hs, l, pos[prev[l]], ip)
      requires place.At? && Aligned(place)
      modifies this
      ensures Ordered()
      ensures elems == InsertSorted(old(elems), key)
      ensures |keys| == |old(keys)| + 1
      ensures maxHeight == if height > old(maxHeight) then height else old(maxHeight)
    {
      var prev := prev;
      if height > maxHeight {
        prev := PointToHead(prev, maxHeight, height);
        forall l | maxHeight <= l < height
          ensures LastBefore(hs, l, pos[prev[l]], ip)
        {
          HeadAboveHeight(hs, maxHeight, l);
        }
        RaiseHeight(keys, next, maxHeight, height, order, pos, elems, hs);
        maxHeight := height;
      }
      PrevLinks(keys, next, maxHeight, order, pos, elems, hs, prev, height, ip);
      var links := LinkTower(next + [NilLinks(height)], prev, height);
      assert (next + [NilLinks(height)])[..|keys|] == next;
      SpliceNode(key, prev, height, links, place, ip);
    }

    /** The new node, of height at most the list's, linked in by links, takes position ip. */
    method SpliceNode(key: Bytes, prev: seq<int>, height: int, links: seq<seq<int>>, place: Pointer, ghost ip: nat)
      requires Ordered() && HasKey(key) && !ContainsKey(elems, key)
      requires ip == LowerBound(Keys(elems), UserKey(key))
      requires 1 <= height <= maxHeight && height <= |prev|
      requires forall l :: 0 <= l < height ==> 0 <= prev[l] < |keys| && LastBefore(hs, l, pos[prev[l]], ip)
      requires forall l :: 0 <= l < height ==> l < |next[prev[l]]|
      requires Spliced(next, prev, height, links)
      requires place.At? && Aligned(place)
      modifies this
      ensures Ordered()
      ensures elems == InsertSorted(old(elems), key)
      ensures |keys| == |old(keys)| + 1 && maxHeight == old(maxHeight)
    {
      InsertKeepsInv(keys, next, maxHeight, order, pos, elems, hs, key, ip, height, prev, links);
      Install(keys + [key], links, places + [place], maxHeight,
              Splice(order, ip, |keys|), ShiftPos(pos, ip), Splice(elems, ip, key), Splice(hs, ip, height));
    }

    /** Replaces the whole state at once by one that satisfies the invariant. */
    method Install(keys': seq<Bytes>, next': seq<seq<int>>, places': seq<Pointer>, maxHeight': int,
                   ghost order': seq<int>, ghost pos': seq<int>, ghost elems': seq<Bytes>, ghost hs': seq<int>)
      requires Inv(keys', next', maxHeight', order', pos', elems', hs')
      requires |places'| == |keys'| && forall n :: 0 <= n < |places'| ==> places'[n].At? && Aligned(places'[n])
      modifies this
      ensures Ordered()
      ensures keys == keys' && next == next' && places == places' && maxHeight == maxHeight'
      ensures order == order' && pos == pos' && elems == elems' && hs == hs'
    {
      keys, next, places, maxHeight := keys', next', places', maxHeight';
      order, pos, elems, hs := order', pos', elems', hs';
    }

    /** Contains: some node's record has the user key of key. */
    method Contains(key: Bytes) returns (b: bool)
      requires Ordered() && HasKey(key)
      ensures b <==> ContainsKey(elems, key)
    {
      var x, prev := FindGreaterOrEqual(keys, next, maxHeight, order, pos, elems, hs, key);
      ghost var ks, t := Keys(elems), UserKey(key);
      ContainsAtLowerBound(ks, t);
      if LowerBound(ks, t) < |elems| {
        CompareAt(keys, next, maxHeight, order, pos, elems, hs, LowerBound(ks, t), key);
      }
      b := x != Nil && Equal(key, keys[x]);
    }
  }

  /** SkipList::Iterator: a position in the list, Nil when not valid. */
  class Iterator {
    const list: SkipList
    var node: int

    /** The list is valid and node is Nil or one of its nodes other than the head. */
    ghost predicate Attached()
      reads this, list, list.rnd, list.memory
    {
      list.Valid() && (node == Nil || 1 <= node < |list.keys|)
    }

    constructor (list: SkipList)
      requires list.Valid()
      ensures Attached() && this.list == list && node == Nil
    {
      this.list := list;
      node := Nil;
    }

    predicate Valid()
      reads this
    {
      node != Nil
    }

    /** key(): the record at the current position. */
    function Key(): (k: Bytes)
      requires Attached() && Valid()
      reads this, list, list.rnd, list.memory
      ensures 0 <= list.pos[node] < |list.elems| && k == list.elems[list.pos[node]]
    {
      list.keys[node]
    }

    /** Next: one step along level 0, to the following position or Nil after the last. */
    method Next()
      requires Attached() && Valid()
      modifies this
      ensures Attached()
      ensures var p := list.pos[old(node)];
                node == if p + 1 == |list.elems| then Nil else list.order[p + 1]
    {
      LevelZeroChain(list.keys, list.next, list.maxHeight, list.order, list.pos, list.elems, list.hs);
      assert node == list.order[list.pos[node]];
      node := list.next[node][0];
    }

    /** Prev: searches again from the head for the node before this one; none before the first. */
    method Prev()
      requires Attached() && Valid()
      modifies this
      ensures Attached()
      ensures var p := list.pos[old(node)];
                node == if p == 0 then Nil else list.order[p - 1]
    {
      ghost var p := list.pos[node];
      NodeKey(list.keys, list.next, list.maxHeight, list.order, list.pos, list.elems, list.hs, p);
      ghost var ks := Keys(list.elems);
      KeyAtLowerBound(ks, ks[p], p);
      node := FindLessThan(list.keys, list.next, list.maxHeight, list.order, list.pos, list.elems, list.hs, list.keys[node]);
      if node == 0 {
        node := Nil;
      }
    }

    /** Seek: lands on the node with the user key of target, and only on an exact match. */
    method Seek(target: Bytes)
      requires Attached() && HasKey(target)
      modifies this
      ensures Attached()
      ensures Valid() <==> ContainsKey(list.elems, target)
      ensures Valid() ==> var i := LowerBound(Keys(list.elems), UserKey(target));
                i < |list.elems| && node == list.order[i]
    {
      var prev;
      node, prev := FindGreaterOrEqual(list.keys, list.next, list.maxHeight, list.order, list.pos, list.elems, list.hs, target);
      ghost var ks, t := Keys(list.elems), UserKey(target);
      ContainsAtLowerBound(ks, t);
      if LowerBound(ks, t) < |list.elems| {
        CompareAt(list.keys, list.next, list.maxHeight, list.order, list.pos, list.elems, list.hs, LowerBound(ks, t), target);
      }
      if node != Nil && CompareEntries(list.keys[node], target) != 0 {
        node := Nil;
      }
    }

    /** SeekToFirst: the head's level-0 link, the first position or Nil. */
    method SeekToFirst()
      requires Attached()
      modifies this
      ensures Attached()
      ensures node == if |list.elems| == 0 then Nil else list.order[0]
    {
      LevelZeroChain(list.keys, list.next, list.maxHeight, list.order, list.pos, list.elems, list.hs);
      node := list.next[0][0];
    }

    /** SeekToLast: the last position, Nil when the list is empty. */
    method SeekToLast()
      requires Attached()
      modifies this
      ensures Attached()
      ensures node == if |list.elems| == 0 then Nil else list.order[|list.elems| - 1]
    {
      node := FindLast(list.keys, list.next, list.maxHeight, list.order, list.pos, list.elems, list.hs);
      if node == 0 {
        node := Nil;
      }
    }
  }
}
