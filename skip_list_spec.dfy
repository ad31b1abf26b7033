/**
 * The abstract content of structure/skip_list.h and the geometry of its towers.
 *
 * The list holds records (see Utils) ordered strictly by user key; Insert
 * overwrites the record of a key already present. A node of height h is linked
 * at levels 0 .. h-1, and its link at level l leads to the next node in key
 * order whose height exceeds l: `First` below finds that node's position.
 */
module SkipListSpec {
  import opened Coding
  import opened Utils
  import opened KeyComparator

  const Nil: int := -1
  const MaxHeight: int := 12

  // ------------------------------------------------------------------
  // Sorted sequences of user keys
  // ------------------------------------------------------------------

  /** Strictly ascending, so no key occurs twice. */
  predicate Sorted(ks: seq<Bytes>) {
    forall i, j {:trigger Less(ks[i], ks[j])} :: 0 <= i < j < |ks| ==> Less(ks[i], ks[j])
  }

  /** The number of leading keys that sort before k. */
  function LowerBound(ks: seq<Bytes>, k: Bytes): (r: nat)
    ensures r <= |ks|
  {
    if ks == [] then 0
    else if Less(ks[0], k) then 1 + LowerBound(ks[1..], k)
    else 0
  }

  /** Every key before the lower bound sorts before k, and the key at it does not. */
  lemma {:induction false} LowerBoundBelow(ks: seq<Bytes>, k: Bytes)
    ensures forall i :: 0 <= i < LowerBound(ks, k) ==> Less(ks[i], k)
    ensures LowerBound(ks, k) < |ks| ==> !Less(ks[LowerBound(ks, k)], k)
  {
    if ks != [] && Less(ks[0], k) {
      LowerBoundBelow(ks[1..], k);
      assert forall i :: 0 < i < |ks| ==> ks[i] == ks[1..][i - 1];
    }
  }

  /** In a sorted sequence the keys sort before k exactly up to the lower bound. */
  lemma LowerBoundTail(ks: seq<Bytes>, k: Bytes)
    requires Sorted(ks)
    ensures forall i :: 0 <= i < LowerBound(ks, k) ==> Less(ks[i], k)
    ensures forall i :: LowerBound(ks, k) <= i < |ks| ==> !Less(ks[i], k)
  {
    LowerBoundBelow(ks, k);
    var r := LowerBound(ks, k);
    forall i | r < i < |ks|
      ensures !Less(ks[i], k)
    {
      LessChain(ks[r], ks[i], k);
    }
  }

  /** A key that is present sits at its lower bound. */
  lemma KeyAtLowerBound(ks: seq<Bytes>, k: Bytes, j: int)
    requires Sorted(ks) && 0 <= j < |ks| && ks[j] == k
    ensures LowerBound(ks, k) == j
  {
    LessIrreflexive(k);
    LowerBoundTail(ks, k);
    var r := LowerBound(ks, k);
    if r < |ks| {
      SortedAt(ks, r, j);
    }
  }

  /** A key of a sorted sequence sorts before k exactly when it lies below k's lower bound. */
  lemma LowerBoundAt(ks: seq<Bytes>, k: Bytes, j: int)
    requires Sorted(ks) && 0 <= j < |ks|
    ensures Less(ks[j], k) <==> j < LowerBound(ks, k)
  {
    LowerBoundTail(ks, k);
  }

  lemma SortedAt(ks: seq<Bytes>, a: int, b: int)
    requires Sorted(ks) && 0 <= a < |ks| && 0 <= b < |ks|
    ensures a < b ==> Less(ks[a], ks[b])
  {
  }

  /** A sorted sequence holds k exactly at its lower bound, if at all. */
  lemma ContainsAtLowerBound(ks: seq<Bytes>, k: Bytes)
    requires Sorted(ks)
    ensures k in ks <==> LowerBound(ks, k) < |ks| && ks[LowerBound(ks, k)] == k
  {
    if k in ks {
      var i :| 0 <= i < |ks| && ks[i] == k;
      KeyAtLowerBound(ks, k, i);
    }
  }

  /** s with x inserted at position ip. */
  function Splice<T>(s: seq<T>, ip: nat, x: T): (r: seq<T>)
    requires ip <= |s|
    ensures |r| == |s| + 1
    ensures forall i :: 0 <= i < ip ==> r[i] == s[i]
    ensures r[ip] == x
    ensures forall i :: ip < i < |r| ==> r[i] == s[i - 1]
  {
    seq(|s| + 1, i requires 0 <= i <= |s| => if i < ip then s[i] else if i == ip then x else s[i - 1])
  }

  /** An absent key goes in at its lower bound: after every key before it, before every key after it. */
  lemma SortedSplice(ks: seq<Bytes>, k: Bytes)
    requires Sorted(ks) && k !in ks
    ensures Sorted(Splice(ks, LowerBound(ks, k), k))
  {
    var i := LowerBound(ks, k);
    var r := Splice(ks, i, k);
    LowerBoundTail(ks, k);
    ContainsAtLowerBound(ks, k);
    forall j | i <= j < |ks|
      ensures Less(k, ks[j])
    {
      LessTrichotomy(ks[i], k);
      LessTrichotomy(ks[j], k);
      LessChain(k, ks[i], ks[j]);
    }
    forall a, b | 0 <= a < b < |r|
      ensures Less(r[a], r[b])
    {
      if a < i && b > i {
        LessChain(ks[a], k, ks[b - 1]);
      }
    }
  }

  // ------------------------------------------------------------------
  // Records
  // ------------------------------------------------------------------

  /** The user key of a stored record; every stored record has one. */
  function UserKey(e: Bytes): Bytes {
    if HasKey(e) then ExtractUserKey(e) else []
  }

  /** The user value of a stored record. */
  function UserValue(e: Bytes): Bytes {
    if IsRecord(e) then ExtractUserValue(e) else []
  }

  predicate AllHaveKeys(s: seq<Bytes>) {
    forall i {:trigger HasKey(s[i])} :: 0 <= i < |s| ==> HasKey(s[i])
  }

  /** The user keys of a sequence of records. */
  function Keys(s: seq<Bytes>): (r: seq<Bytes>)
    ensures |r| == |s|
  {
    seq(|s|, i requires 0 <= i < |s| => UserKey(s[i]))
  }

  lemma KeysSplice(s: seq<Bytes>, ip: nat, e: Bytes)
    requires ip <= |s|
    ensures Keys(Splice(s, ip, e)) == Splice(Keys(s), ip, UserKey(e))
  {
  }

  lemma KeysUpdate(s: seq<Bytes>, i: nat, e: Bytes)
    requires i < |s| && UserKey(s[i]) == UserKey(e)
    ensures Keys(s[i := e]) == Keys(s)
  {
  }

  /** Some record has the user key of k. */
  predicate ContainsKey(s: seq<Bytes>, k: Bytes) {
    UserKey(k) in Keys(s)
  }

  /** The content after Insert(k): k replaces the record of its key, or goes in at its place. */
  function InsertSorted(s: seq<Bytes>, k: Bytes): seq<Bytes> {
    var i := LowerBound(Keys(s), UserKey(k));
    if i < |s| && UserKey(s[i]) == UserKey(k) then s[i := k] else Splice(s, i, k)
  }

  /** Insert keeps the records sorted, adds exactly the key of k with k as its record, and keeps every other record. */
  lemma InsertSortedProperties(s: seq<Bytes>, k: Bytes)
    requires AllHaveKeys(s) && Sorted(Keys(s)) && HasKey(k)
    ensures AllHaveKeys(InsertSorted(s, k)) && Sorted(Keys(InsertSorted(s, k)))
    ensures forall x :: x in Keys(InsertSorted(s, k)) <==> x in Keys(s) || x == UserKey(k)
    ensures forall i :: 0 <= i < |InsertSorted(s, k)| && Keys(InsertSorted(s, k))[i] == UserKey(k) ==> InsertSorted(s, k)[i] == k
    ensures forall e :: e in s && UserKey(e) != UserKey(k) ==> e in InsertSorted(s, k)
    ensures |InsertSorted(s, k)| == if ContainsKey(s, k) then |s| else |s| + 1
  {
    var ks, uk := Keys(s), UserKey(k);
    var i := LowerBound(ks, uk);
    ContainsAtLowerBound(ks, uk);
    if i < |s| && UserKey(s[i]) == uk {
      InsertPresent(s, k, i);
    } else {
      InsertAbsent(s, k, i);
    }
  }

  lemma InsertPresent(s: seq<Bytes>, k: Bytes, i: nat)
    requires AllHaveKeys(s) && Sorted(Keys(s)) && HasKey(k) && i < |s| && UserKey(s[i]) == UserKey(k)
    ensures AllHaveKeys(s[i := k])
    ensures Keys(s[i := k]) == Keys(s)
    ensures forall j :: 0 <= j < |s| && Keys(s)[j] == UserKey(k) ==> j == i
    ensures forall e :: e in s && UserKey(e) != UserKey(k) ==> e in s[i := k]
  {
    var ks, uk, r := Keys(s), UserKey(k), s[i := k];
    KeysUpdate(s, i, k);
    assert forall j :: 0 <= j < |r| ==> r[j] == s[j] || r[j] == k;
    forall j | 0 <= j < |s| && ks[j] == uk
      ensures j == i
    {
      KeyAtLowerBound(ks, uk, j);
      KeyAtLowerBound(ks, uk, i);
    }
    forall e | e in s && UserKey(e) != uk
      ensures e in r
    {
      var j :| 0 <= j < |s| && s[j] == e;
      assert r[j] == e;
    }
  }

  lemma InsertAbsent(s: seq<Bytes>, k: Bytes, i: nat)
    requires AllHaveKeys(s) && Sorted(Keys(s)) && HasKey(k)
    requires UserKey(k) !in Keys(s) && i == LowerBound(Keys(s), UserKey(k))
    ensures AllHaveKeys(Splice(s, i, k))
    ensures Keys(Splice(s, i, k)) == Splice(Keys(s), i, UserKey(k))
    ensures Sorted(Keys(Splice(s, i, k)))
    ensures forall x :: x in Keys(Splice(s, i, k)) <==> x in Keys(s) || x == UserKey(k)
    ensures forall j :: 0 <= j < |s| + 1 && Keys(Splice(s, i, k))[j] == UserKey(k) ==> Splice(s, i, k)[j] == k
    ensures forall e :: e in s && UserKey(e) != UserKey(k) ==> e in Splice(s, i, k)
  {
    var ks, uk := Keys(s), UserKey(k);
    KeysSplice(s, i, k);
    SortedSplice(ks, uk);
    SpliceMembers(ks, i, uk);
    SpliceMembers(s, i, k);
    SpliceOnlyAt(ks, i, uk);
    var r := Splice(s, i, k);
    assert forall j :: 0 <= j < |r| && j != i ==> r[j] == s[if j < i then j else j - 1];
  }

  /** The members of Splice(s, i, x) are those of s and x. */
  lemma SpliceMembers<T>(s: seq<T>, i: nat, x: T)
    requires i <= |s|
    ensures forall y :: y in Splice(s, i, x) <==> y in s || y == x
  {
    var r := Splice(s, i, x);
    forall y
      ensures y in r <==> y in s || y == x
    {
      if y in s {
        var j :| 0 <= j < |s| && s[j] == y;
        assert r[if j < i then j else j + 1] == y;
      }
      if y in r {
        var j :| 0 <= j < |r| && r[j] == y;
        assert j != i ==> s[if j < i then j else j - 1] == y;
      }
    }
  }

  /** A value absent from s occurs in Splice(s, i, x) only at i. */
  lemma SpliceOnlyAt<T>(s: seq<T>, i: nat, x: T)
    requires i <= |s| && x !in s
    ensures forall j :: 0 <= j < |s| + 1 && Splice(s, i, x)[j] == x ==> j == i
  {
  }

  /** After Insert(k) the key of k is present. */
  lemma InsertContains(s: seq<Bytes>, k: Bytes)
    requires AllHaveKeys(s) && Sorted(Keys(s)) && HasKey(k)
    ensures ContainsKey(InsertSorted(s, k), k)
  {
    InsertSortedProperties(s, k);
  }

  // ------------------------------------------------------------------
  // Towers
  // ------------------------------------------------------------------

  /**
   * The first position at or after q whose height exceeds l, or |hs| when
   * there is none: where a link at level l from just before q leads.
   */
  function First(hs: seq<int>, l: int, q: nat): (r: nat)
    requires q <= |hs|
    ensures q <= r <= |hs|
    ensures r < |hs| ==> hs[r] > l
    decreases |hs| - q
  {
    if q == |hs| then q else if hs[q] > l then q else First(hs, l, q + 1)
  }

  /** Every position First skips is no taller than l. */
  lemma {:induction false} FirstSkipped(hs: seq<int>, l: int, q: nat)
    requires q <= |hs|
    ensures forall k :: q <= k < First(hs, l, q) ==> hs[k] <= l
    decreases |hs| - q
  {
    if q < |hs| && hs[q] <= l {
      FirstSkipped(hs, l, q + 1);
    }
  }

  /** The three properties of First determine it. */
  lemma {:induction false} FirstUnique(hs: seq<int>, l: int, q: nat, r: nat)
    requires q <= r <= |hs|
    requires r < |hs| ==> hs[r] > l
    requires forall k :: q <= k < r ==> hs[k] <= l
    ensures First(hs, l, q) == r
    decreases r - q
  {
    if q < r {
      FirstUnique(hs, l, q + 1, r);
    }
  }

  /** Every node reaches level 0, so a level-0 link leads to the very next position. */
  lemma FirstLevelZero(hs: seq<int>, q: nat)
    requires q <= |hs| && forall i :: 0 <= i < |hs| ==> 1 <= hs[i]
    ensures First(hs, 0, q) == q
  {
  }

  /** Skipping positions no taller than l does not move the target of a link. */
  lemma FirstSkip(hs: seq<int>, l: int, a: nat, b: nat)
    requires a <= |hs| && a <= b <= First(hs, l, a)
    ensures First(hs, l, b) == First(hs, l, a)
  {
    FirstSkipped(hs, l, a);
    FirstUnique(hs, l, b, First(hs, l, a));
  }

  /** Where First goes once a tower of height h is inserted at position ip. */
  lemma FirstInsert(hs: seq<int>, ip: nat, h: int, l: int, q: nat)
    requires ip <= |hs| && q <= |hs| + 1
    ensures First(Splice(hs, ip, h), l, q) ==
              if q > ip then First(hs, l, q - 1) + 1
              else if First(hs, l, q) < ip then First(hs, l, q)
              else if l < h then ip
              else First(hs, l, q) + 1
  {
    var hs' := Splice(hs, ip, h);
    if q > ip {
      FirstSkipped(hs, l, q - 1);
      FirstUnique(hs', l, q, First(hs, l, q - 1) + 1);
    } else {
      FirstSkipped(hs, l, q);
      var f := First(hs, l, q);
      if f < ip {
        FirstUnique(hs', l, q, f);
      } else if l < h {
        FirstUnique(hs', l, q, ip);
      } else {
        FirstUnique(hs', l, q, f + 1);
      }
    }
  }

  /** The node a link at level l from position p (the head is -1) leads to. */
  function Link(order: seq<int>, hs: seq<int>, l: int, p: int): int
    requires |order| == |hs| && -1 <= p < |order|
  {
    var r := First(hs, l, p + 1);
    if r == |hs| then Nil else order[r]
  }

  // ------------------------------------------------------------------
  // The representation invariant
  // ------------------------------------------------------------------

  /**
   * Node handles index `next`; handle 0 is the head, of height MaxHeight.
   * `order` lists the other handles in key order, `pos` is its inverse (the
   * head at -1) and `hs` holds the heights in that order.
   */
  ghost predicate Structure(next: seq<seq<int>>, maxHeight: int, order: seq<int>, pos: seq<int>, hs: seq<int>) {
    && |next| == |pos| == |order| + 1 && |hs| == |order|
    && 1 <= maxHeight <= MaxHeight
    && |next[0]| == MaxHeight && pos[0] == -1
    && (forall i :: 0 <= i < |order| ==> 1 <= order[i] < |next| && pos[order[i]] == i)
    && (forall n :: 1 <= n < |pos| ==> 0 <= pos[n] < |order| && order[pos[n]] == n)
    && (forall i :: 0 <= i < |order| ==> hs[i] == |next[order[i]]|)
    && (forall i :: 0 <= i < |hs| ==> 1 <= hs[i] <= maxHeight)
  }

  /** `elems` holds the keys of the nodes in key order. */
  ghost predicate Contents(keys: seq<Bytes>, order: seq<int>, elems: seq<Bytes>) {
    && |keys| == |order| + 1 && |elems| == |order|
    && (forall i :: 0 <= i < |order| ==> 0 <= order[i] < |keys| && elems[i] == keys[order[i]])
  }

  /** Every link leads where the tower geometry says. */
  ghost predicate Linked(next: seq<seq<int>>, order: seq<int>, pos: seq<int>, hs: seq<int>)
    requires |pos| == |next| && |order| == |hs|
    requires forall n :: 0 <= n < |pos| ==> -1 <= pos[n] < |order|
  {
    forall n, l :: 0 <= n < |next| && 0 <= l < |next[n]| ==> next[n][l] == Link(order, hs, l, pos[n])
  }

  ghost predicate Inv(keys: seq<Bytes>, next: seq<seq<int>>, maxHeight: int,
                      order: seq<int>, pos: seq<int>, elems: seq<Bytes>, hs: seq<int>) {
    && Structure(next, maxHeight, order, pos, hs)
    && Contents(keys, order, elems)
    && Linked(next, order, pos, hs)
    && AllHaveKeys(elems) && Sorted(Keys(elems))
  }

  /** The node at position i is a stored record whose user key is the i-th key. */
  lemma NodeKey(keys: seq<Bytes>, next: seq<seq<int>>, maxHeight: int,
                order: seq<int>, pos: seq<int>, elems: seq<Bytes>, hs: seq<int>, i: int)
    requires Inv(keys, next, maxHeight, order, pos, elems, hs) && 0 <= i < |order|
    ensures 1 <= order[i] < |keys| && pos[order[i]] == i
    ensures HasKey(keys[order[i]]) && ExtractUserKey(keys[order[i]]) == Keys(elems)[i]
  {
  }

  /**
   * Following the link of node x at level l, where x is the head or reaches
   * level l: it leads to the next position that reaches l, or to Nil.
   */
  lemma NextAt(keys: seq<Bytes>, next: seq<seq<int>>, maxHeight: int,
               order: seq<int>, pos: seq<int>, elems: seq<Bytes>, hs: seq<int>, x: int, l: int)
    requires Inv(keys, next, maxHeight, order, pos, elems, hs)
    requires 0 <= x < |keys| && 0 <= l < maxHeight && (x == 0 || hs[pos[x]] > l)
    ensures -1 <= pos[x] < |hs| && (x == 0 <==> pos[x] == -1) && l < |next[x]|
    ensures First(hs, l, pos[x] + 1) == |hs| ==> next[x][l] == Nil
    ensures First(hs, l, pos[x] + 1) < |hs| ==> next[x][l] == order[First(hs, l, pos[x] + 1)]
    ensures First(hs, l, pos[x] + 1) < |hs| ==> 1 <= next[x][l] < |keys| && pos[next[x][l]] == First(hs, l, pos[x] + 1)
  {
    assert x != 0 ==> x == order[pos[x]];
  }

  /**
   * The level-0 links visit every node in key order: the head links to the
   * first position, position i to position i + 1, the last to Nil.
   */
  lemma LevelZeroChain(keys: seq<Bytes>, next: seq<seq<int>>, maxHeight: int,
                       order: seq<int>, pos: seq<int>, elems: seq<Bytes>, hs: seq<int>)
    requires Inv(keys, next, maxHeight, order, pos, elems, hs)
    ensures next[0][0] == if |order| == 0 then Nil else order[0]
    ensures forall i :: 0 <= i < |order| ==> 0 < |next[order[i]]| && next[order[i]][0] == if i + 1 == |order| then Nil else order[i + 1]
  {
    NextAt(keys, next, maxHeight, order, pos, elems, hs, 0, 0);
    forall i | 0 <= i < |order|
      ensures 0 < |next[order[i]]| && next[order[i]][0] == if i + 1 == |order| then Nil else order[i + 1]
    {
      NextAt(keys, next, maxHeight, order, pos, elems, hs, order[i], 0);
    }
  }

  /** A taller maximum height keeps the invariant. */
  lemma RaiseHeight(keys: seq<Bytes>, next: seq<seq<int>>, maxHeight: int, maxHeight': int,
                    order: seq<int>, pos: seq<int>, elems: seq<Bytes>, hs: seq<int>)
    requires Inv(keys, next, maxHeight, order, pos, elems, hs)
    requires maxHeight <= maxHeight' <= MaxHeight
    ensures Inv(keys, next, maxHeight', order, pos, elems, hs)
  {
  }

  /** Above the current height the head links to nothing. */
  lemma HeadAboveHeight(hs: seq<int>, maxHeight: int, l: int)
    requires forall i :: 0 <= i < |hs| ==> hs[i] <= maxHeight
    requires maxHeight <= l
    ensures First(hs, l, 0) == |hs|
  {
    FirstUnique(hs, l, 0, |hs|);
  }

  /** Position pp is the last one before ip that reaches level l (the head, -1, if none does). */
  ghost predicate LastBefore(hs: seq<int>, l: int, pp: int, ip: int) {
    && -1 <= pp < ip <= |hs|
    && (pp == -1 || hs[pp] > l)
    && ip <= First(hs, l, pp + 1)
  }

  /**
   * One step of a search at level l from node x, the head or a node before
   * position lb that reaches l: its link leads to Nil or to a later node that
   * reaches l.
   */
  lemma SearchStep(keys: seq<Bytes>, next: seq<seq<int>>, maxHeight: int,
                   order: seq<int>, pos: seq<int>, elems: seq<Bytes>, hs: seq<int>,
                   x: int, l: int, lb: int)
    requires Inv(keys, next, maxHeight, order, pos, elems, hs)
    requires 0 <= x < |keys| && 0 <= l < maxHeight && (x == 0 || hs[pos[x]] > l)
    requires pos[x] < lb <= |order|
    ensures l < |next[x]|
    ensures next[x][l] == Nil || (1 <= next[x][l] < |keys| && pos[x] < pos[next[x][l]] && hs[pos[next[x][l]]] > l)
    ensures next[x][l] != Nil ==>
              HasKey(keys[next[x][l]]) && ExtractUserKey(keys[next[x][l]]) == Keys(elems)[pos[next[x][l]]]
  {
    NextAt(keys, next, maxHeight, order, pos, elems, hs, x, l);
    if next[x][l] != Nil {
      NodeKey(keys, next, maxHeight, order, pos, elems, hs, pos[next[x][l]]);
    }
  }

  /**
   * When the link of x at level l does not lead before lb, x is the last node
   * before lb at level l, and at level 0 it sits just before lb.
   */
  lemma SearchStop(keys: seq<Bytes>, next: seq<seq<int>>, maxHeight: int,
                   order: seq<int>, pos: seq<int>, elems: seq<Bytes>, hs: seq<int>,
                   x: int, l: int, lb: int)
    requires Inv(keys, next, maxHeight, order, pos, elems, hs)
    requires 0 <= x < |keys| && 0 <= l < maxHeight && (x == 0 || hs[pos[x]] > l)
    requires pos[x] < lb <= |order|
    requires l < |next[x]| && (next[x][l] == Nil || (1 <= next[x][l] < |keys| && pos[next[x][l]] >= lb))
    ensures LastBefore(hs, l, pos[x], lb)
    ensures l == 0 ==>
              && lb == pos[x] + 1
              && next[x][l] == (if lb == |order| then Nil else order[lb])
              && x == (if lb == 0 then 0 else order[lb - 1])
  {
    NextAt(keys, next, maxHeight, order, pos, elems, hs, x, l);
    FirstLevelZero(hs, pos[x] + 1);
  }

  /**
   * One step of a search for key at level l from node x, the head or a node
   * before key's lower bound lb that reaches l. The node x links to is either
   * before lb, so it reaches l and follows x, or it is not, and then x is the
   * last node before lb at level l and at level 0 sits just before lb. The
   * comparator tells the two cases apart.
   */
  lemma SearchKey(keys: seq<Bytes>, next: seq<seq<int>>, maxHeight: int,
                  order: seq<int>, pos: seq<int>, elems: seq<Bytes>, hs: seq<int>,
                  x: int, l: int, key: Bytes, lb: int)
    requires Inv(keys, next, maxHeight, order, pos, elems, hs) && HasKey(key)
    requires lb == LowerBound(Keys(elems), UserKey(key))
    requires 0 <= x < |keys| && 0 <= l < maxHeight && (x == 0 || hs[pos[x]] > l) && pos[x] < lb
    ensures l < |next[x]|
    ensures next[x][l] == Nil || (1 <= next[x][l] < |keys| && HasKey(keys[next[x][l]]))
    ensures next[x][l] != Nil && CompareEntries(keys[next[x][l]], key) < 0 ==>
              pos[x] < pos[next[x][l]] < lb && hs[pos[next[x][l]]] > l
    ensures next[x][l] == Nil || CompareEntries(keys[next[x][l]], key) >= 0 ==>
              && LastBefore(hs, l, pos[x], lb)
              && (l == 0 ==>
                    && next[x][l] == (if lb == |order| then Nil else order[lb])
                    && x == (if lb == 0 then 0 else order[lb - 1]))
  {
    SearchStep(keys, next, maxHeight, order, pos, elems, hs, x, l, lb);
    var nx := next[x][l];
    if nx != Nil {
      LowerBoundAt(Keys(elems), UserKey(key), pos[nx]);
    }
    if nx == Nil || pos[nx] >= lb {
      SearchStop(keys, next, maxHeight, order, pos, elems, hs, x, l, lb);
    }
  }

  /** Recording x as the last node before lb at level l extends what prev records down to l. */
  lemma PrevStep(hs: seq<int>, pos: seq<int>, prev: seq<int>, x: int, l: int, top: int, lb: int)
    requires 0 <= l < top <= |prev|
    requires forall k :: l < k < top ==> 0 <= prev[k] < |pos| && LastBefore(hs, k, pos[prev[k]], lb)
    requires 0 <= x < |pos| && LastBefore(hs, l, pos[x], lb)
    ensures var prev' := prev[l := x];
              forall k :: l - 1 < k < top ==> 0 <= prev'[k] < |pos| && LastBefore(hs, k, pos[prev'[k]], lb)
  {
  }

  /** The nodes the search left in prev reach every level below h. */
  lemma PrevLinks(keys: seq<Bytes>, next: seq<seq<int>>, maxHeight: int,
                  order: seq<int>, pos: seq<int>, elems: seq<Bytes>, hs: seq<int>,
                  prev: seq<int>, h: int, ip: int)
    requires Inv(keys, next, maxHeight, order, pos, elems, hs)
    requires h <= maxHeight && h <= |prev|
    requires forall l :: 0 <= l < h ==> 0 <= prev[l] < |keys| && LastBefore(hs, l, pos[prev[l]], ip)
    ensures forall l :: 0 <= l < h ==> 0 <= prev[l] < |keys| && l < |next[prev[l]]|
  {
    forall l | 0 <= l < h
      ensures l < |next[prev[l]]|
    {
      NextAt(keys, next, maxHeight, order, pos, elems, hs, prev[l], l);
    }
  }

  /**
   * The comparator on the node at position i against key: before it exactly
   * when i is below key's lower bound, equal exactly when the user keys are.
   */
  lemma CompareAt(keys: seq<Bytes>, next: seq<seq<int>>, maxHeight: int,
                  order: seq<int>, pos: seq<int>, elems: seq<Bytes>, hs: seq<int>, i: int, key: Bytes)
    requires Inv(keys, next, maxHeight, order, pos, elems, hs) && 0 <= i < |order| && HasKey(key)
    ensures 1 <= order[i] < |keys| && pos[order[i]] == i && HasKey(keys[order[i]])
    ensures CompareEntries(keys[order[i]], key) < 0 <==> i < LowerBound(Keys(elems), UserKey(key))
    ensures CompareEntries(keys[order[i]], key) == 0 <==> Keys(elems)[i] == UserKey(key)
    ensures CompareEntries(key, keys[order[i]]) == 0 <==> Keys(elems)[i] == UserKey(key)
  {
    NodeKey(keys, next, maxHeight, order, pos, elems, hs, i);
    LowerBoundTail(Keys(elems), UserKey(key));
  }

  /** The node at the lower bound holds key's user key exactly when the list contains it. */
  lemma FoundAt(keys: seq<Bytes>, next: seq<seq<int>>, maxHeight: int,
                order: seq<int>, pos: seq<int>, elems: seq<Bytes>, hs: seq<int>, x: int, key: Bytes)
    requires Inv(keys, next, maxHeight, order, pos, elems, hs) && HasKey(key)
    requires var i := LowerBound(Keys(elems), UserKey(key));
               x == if i == |elems| then Nil else order[i]
    ensures x == Nil || (1 <= x < |keys| && HasKey(keys[x]))
    ensures (x != Nil && ExtractUserKey(keys[x]) == ExtractUserKey(key)) <==> ContainsKey(elems, key)
  {
    var i := LowerBound(Keys(elems), UserKey(key));
    ContainsAtLowerBound(Keys(elems), UserKey(key));
    if i < |elems| {
      CompareAt(keys, next, maxHeight, order, pos, elems, hs, i, key);
    }
  }

  /** Overwriting a record with one of the same user key keeps the invariant. */
  lemma OverwriteKeepsInv(keys: seq<Bytes>, next: seq<seq<int>>, maxHeight: int,
                          order: seq<int>, pos: seq<int>, elems: seq<Bytes>, hs: seq<int>,
                          n: int, t: Bytes)
    requires Inv(keys, next, maxHeight, order, pos, elems, hs)
    requires 1 <= n < |keys| && HasKey(t) && UserKey(keys[n]) == UserKey(t)
    ensures Inv(keys[n := t], next, maxHeight, order, pos, elems[pos[n] := t], hs)
    ensures elems[pos[n] := t] == InsertSorted(elems, t)
  {
    KeysUpdate(elems, pos[n], t);
    KeyAtLowerBound(Keys(elems), UserKey(t), pos[n]);
  }

  /** The position map after a new handle takes position ip. */
  function ShiftPos(pos: seq<int>, ip: int): (r: seq<int>)
    ensures |r| == |pos| + 1
    ensures r[|pos|] == ip
    ensures forall m :: 0 <= m < |pos| ==> r[m] == if pos[m] >= ip then pos[m] + 1 else pos[m]
  {
    seq(|pos| + 1, m requires 0 <= m <= |pos| => if m == |pos| then ip else if pos[m] >= ip then pos[m] + 1 else pos[m])
  }

  /**
   * The links after splicing in a tower of height h as handle |next|: for
   * each level l < h the new node takes over prev[l]'s link and prev[l]
   * links to it; nothing else changes.
   */
  ghost predicate Spliced(next: seq<seq<int>>, prev: seq<int>, h: int, next': seq<seq<int>>)
    requires h <= |prev|
    requires forall l :: 0 <= l < h ==> 0 <= prev[l] < |next| && l < |next[prev[l]]|
  {
    && |next'| == |next| + 1 && |next'[|next|]| == h
    && (forall m :: 0 <= m < |next| ==> |next'[m]| == |next[m]|)
    && (forall m, l :: 0 <= m < |next| && 0 <= l < |next[m]| ==>
          next'[m][l] == if l < h && m == prev[l] then |next| else next[m][l])
    && (forall l :: 0 <= l < h ==> next'[|next|][l] == next[prev[l]][l])
  }

  /**
   * Splicing a new tower for key t in at its lower bound, with prev[l] found
   * by the search at every level below h, keeps the invariant.
   */
  lemma InsertKeepsInv(keys: seq<Bytes>, next: seq<seq<int>>, maxHeight: int,
                       order: seq<int>, pos: seq<int>, elems: seq<Bytes>, hs: seq<int>,
                       t: Bytes, ip: nat, h: int, prev: seq<int>, next': seq<seq<int>>)
    requires Inv(keys, next, maxHeight, order, pos, elems, hs)
    requires HasKey(t) && !ContainsKey(elems, t) && ip == LowerBound(Keys(elems), UserKey(t))
    requires 1 <= h <= maxHeight && h <= |prev|
    requires forall l :: 0 <= l < h ==> 0 <= prev[l] < |keys| && LastBefore(hs, l, pos[prev[l]], ip)
    requires forall l :: 0 <= l < h ==> l < |next[prev[l]]|
    requires Spliced(next, prev, h, next')
    ensures Inv(keys + [t], next', maxHeight, Splice(order, ip, |keys|), ShiftPos(pos, ip),
                Splice(elems, ip, t), Splice(hs, ip, h))
    ensures Splice(elems, ip, t) == InsertSorted(elems, t)
  {
    StructureAfterInsert(next, maxHeight, order, pos, hs, ip, h, next');
    ContentsAfterInsert(keys, order, elems, t, ip);
    ContainsAtLowerBound(Keys(elems), UserKey(t));
    KeysSplice(elems, ip, t);
    SortedSplice(Keys(elems), UserKey(t));
    LinkedAfterInsert(next, maxHeight, order, pos, hs, ip, h, prev, next');
  }

  lemma StructureAfterInsert(next: seq<seq<int>>, maxHeight: int, order: seq<int>, pos: seq<int>, hs: seq<int>,
                             ip: nat, h: int, next': seq<seq<int>>)
    requires Structure(next, maxHeight, order, pos, hs)
    requires ip <= |order| && 1 <= h <= maxHeight
    requires |next'| == |next| + 1 && |next'[|next|]| == h
    requires forall m :: 0 <= m < |next| ==> |next'[m]| == |next[m]|
    ensures Structure(next', maxHeight, Splice(order, ip, |next|), ShiftPos(pos, ip), Splice(hs, ip, h))
  {
    var n := |next|;
    var order', pos', hs' := Splice(order, ip, n), ShiftPos(pos, ip), Splice(hs, ip, h);
    forall i | 0 <= i < |order'|
      ensures 1 <= order'[i] < |next'| && pos'[order'[i]] == i && hs'[i] == |next'[order'[i]]|
    {
      if i > ip {
        assert order'[i] == order[i - 1];
      }
    }
    forall m | 1 <= m < |pos'|
      ensures 0 <= pos'[m] < |order'| && order'[pos'[m]] == m
    {
      if m < n && pos[m] >= ip {
        assert order'[pos[m] + 1] == order[pos[m]];
      }
    }
  }

  lemma ContentsAfterInsert(keys: seq<Bytes>, order: seq<int>, elems: seq<Bytes>, t: Bytes, ip: nat)
    requires Contents(keys, order, elems) && ip <= |order|
    ensures Contents(keys + [t], Splice(order, ip, |keys|), Splice(elems, ip, t))
  {
    var order', elems' := Splice(order, ip, |keys|), Splice(elems, ip, t);
    forall i | 0 <= i < |order'|
      ensures 0 <= order'[i] < |keys| + 1 && elems'[i] == (keys + [t])[order'[i]]
    {
      if i > ip {
        assert order'[i] == order[i - 1];
      }
    }
  }

  lemma LinkedAfterInsert(next: seq<seq<int>>, maxHeight: int, order: seq<int>, pos: seq<int>, hs: seq<int>,
                          ip: nat, h: int, prev: seq<int>, next': seq<seq<int>>)
    requires Structure(next, maxHeight, order, pos, hs) && Linked(next, order, pos, hs)
    requires ip <= |order| && 1 <= h <= maxHeight && h <= |prev|
    requires forall l :: 0 <= l < h ==> 0 <= prev[l] < |next| && l < |next[prev[l]]|
    requires forall l :: 0 <= l < h ==> LastBefore(hs, l, pos[prev[l]], ip)
    requires Spliced(next, prev, h, next')
    ensures Linked(next', Splice(order, ip, |next|), ShiftPos(pos, ip), Splice(hs, ip, h))
  {
    var pos' := ShiftPos(pos, ip);
    assert forall m :: 0 <= m < |pos'| ==> -1 <= pos'[m] < |order| + 1;
    forall m, l | 0 <= m < |next'| && 0 <= l < |next'[m]|
      ensures next'[m][l] == Link(Splice(order, ip, |next|), Splice(hs, ip, h), l, pos'[m])
    {
      LinkAfterInsert(next, maxHeight, order, pos, hs, ip, h, prev, next', m, l);
    }
  }

  /** The link of node m at level l after the insertion. */
  lemma LinkAfterInsert(next: seq<seq<int>>, maxHeight: int, order: seq<int>, pos: seq<int>, hs: seq<int>,
                        ip: nat, h: int, prev: seq<int>, next': seq<seq<int>>, m: int, l: int)
    requires Structure(next, maxHeight, order, pos, hs) && Linked(next, order, pos, hs)
    requires ip <= |order| && 1 <= h <= maxHeight && h <= |prev|
    requires forall l :: 0 <= l < h ==> 0 <= prev[l] < |next| && l < |next[prev[l]]|
    requires forall l :: 0 <= l < h ==> LastBefore(hs, l, pos[prev[l]], ip)
    requires Spliced(next, prev, h, next')
    requires 0 <= m < |next'| && 0 <= l < |next'[m]|
    ensures -1 <= ShiftPos(pos, ip)[m] < |order| + 1
    ensures next'[m][l] == Link(Splice(order, ip, |next|), Splice(hs, ip, h), l, ShiftPos(pos, ip)[m])
  {
    var n := |next|;
    if m == n {
      NewTowerLink(order, hs, ip, h, n, l, pos[prev[l]]);
    } else if l < h && m == prev[l] {
      LinkToNew(order, hs, ip, h, n, l, pos[m]);
    } else {
      var p := pos[m];
      assert next'[m][l] == next[m][l] == Link(order, hs, l, p);
      assert p == -1 || hs[p] > l by {
        assert m == 0 || hs[pos[m]] == |next[m]|;
      }
      var pp := if l < h then pos[prev[l]] else -1;
      if l < h {
        assert pp != p by {
          assert m == 0 || order[p] == m;
          assert prev[l] == 0 || order[pp] == prev[l];
        }
      }
      LinkKept(order, hs, ip, h, n, l, p, pp);
      assert ShiftPos(pos, ip)[m] == if p >= ip then p + 1 else p;
    }
  }

  /** The new node at level l inherits the link of the node before it. */
  lemma NewTowerLink(order: seq<int>, hs: seq<int>, ip: nat, h: int, n: int, l: int, pp: int)
    requires |order| == |hs| && 0 <= l < h
    requires LastBefore(hs, l, pp, ip)
    ensures Link(Splice(order, ip, n), Splice(hs, ip, h), l, ip) == Link(order, hs, l, pp)
  {
    FirstSkip(hs, l, pp + 1, ip);
    FirstInsert(hs, ip, h, l, ip + 1);
  }

  /** The node before the insertion point at level l now links to the new node. */
  lemma LinkToNew(order: seq<int>, hs: seq<int>, ip: nat, h: int, n: int, l: int, p: int)
    requires |order| == |hs| && 0 <= l < h
    requires LastBefore(hs, l, p, ip)
    ensures Link(Splice(order, ip, n), Splice(hs, ip, h), l, p) == n
  {
    FirstInsert(hs, ip, h, l, p + 1);
  }

  /**
   * Any other link keeps its target: at levels the new tower does not reach
   * the target only shifts, and below its height a node that is not the last
   * before ip links to a node before ip.
   */
  lemma LinkKept(order: seq<int>, hs: seq<int>, ip: nat, h: int, n: int, l: int, p: int, pp: int)
    requires |order| == |hs| && ip <= |hs| && -1 <= p < |hs|
    requires p == -1 || hs[p] > l
    requires l < h ==> LastBefore(hs, l, pp, ip) && pp != p
    ensures Link(Splice(order, ip, n), Splice(hs, ip, h), l, if p >= ip then p + 1 else p) == Link(order, hs, l, p)
  {
    var p' := if p >= ip then p + 1 else p;
    FirstInsert(hs, ip, h, l, p' + 1);
    if l < h && p < ip {
      LinkBeforeLast(hs, l, p, pp, ip);
    }
  }

  /** A node before ip that reaches level l, other than the last such, links to a position before ip. */
  lemma LinkBeforeLast(hs: seq<int>, l: int, p: int, pp: int, ip: int)
    requires LastBefore(hs, l, pp, ip) && pp != p
    requires -1 <= p < ip && (p == -1 || hs[p] > l)
    ensures First(hs, l, p + 1) < ip
  {
    FirstSkipped(hs, l, pp + 1);
    assert p < pp;
    FirstSkipped(hs, l, p + 1);
  }
}
