/**
 * db/storage_buffer.h, db/storage_buffer.cpp: the write buffer. Writes go to
 * the income skip list; once it has taken more than buffer_size bytes and the
 * flush thread is idle, it becomes the flush buffer and a new income list is
 * started. The flush thread writes the flush buffer out as one segment file
 * (Flush) and then drops it.
 */
module StorageBuffers {
  import opened Wrappers
  import opened Coding
  import opened Utils
  import opened Arena
  import opened SkipListSpec
  import opened SkipLists
  import opened Segments

  /** type/order_type.h: the operation a client sends. */
  datatype OrderType = Put | Delete

  // ------------------------------------------------------------------
  // What the buffers hold
  // ------------------------------------------------------------------

  /** A record as Add encodes it: one exact record whose length fits the 32-bit encoded_len. */
  predicate Fits(e: Bytes) {
    Exact(e) && |e| < TWO32
  }

  /**
   * Add's uint32 encoded_len of the record of key and value does not wrap.
   * When it does, the C's Allocate receives the length modulo 2^32 and the
   * two memcpy calls write past the block it returns; the model reports that
   * case as an error and changes nothing.
   */
  predicate Encodable(key: Bytes, value: Bytes)
    requires |key| < TWO32 && |value| < TWO32
  {
    |Record(key, value)| < TWO32
  }

  /** Every record in a buffer is one that Add encoded. */
  predicate Stored(s: seq<Bytes>) {
    forall e :: e in s ==> Fits(e)
  }

  /** The record Add builds is one that fits. */
  lemma {:induction false} RecordFits(k: Bytes, v: Bytes)
    requires |k| < TWO32 && |v| < TWO32 && |Record(k, v)| < TWO32
    ensures Fits(Record(k, v)) && HasKey(Record(k, v))
    ensures UserKey(Record(k, v)) == k && UserValue(Record(k, v)) == v
  {
    RecordExact(k, v);
  }

  /** A record that fits is read back whole: EntrySize is its length. */
  lemma {:induction false} FitsWhole(e: Bytes)
    requires Fits(e)
    ensures IsRecord(e) && HasKey(e) && EntrySize(e) == |e| && e[..EntrySize(e)] == e
  {
    var k, v, none := ExtractUserKey(e), ExtractUserValue(e), [];
    RecordParses(k, v, none);
    assert Record(k, v) + none == e;
  }

  /** Insert keeps every record one that Add encoded. */
  lemma {:induction false} StoredInsert(s: seq<Bytes>, r: Bytes)
    requires Stored(s) && Fits(r)
    ensures Stored(InsertSorted(s, r))
  {
    var i := LowerBound(Keys(s), UserKey(r));
    if i < |s| && UserKey(s[i]) == UserKey(r) {
      assert forall e :: e in s[i := r] ==> e == r || e in s;
    } else {
      SpliceMembers(s, i, r);
    }
  }

  /** The records of a buffer all start with a key. */
  lemma {:induction false} StoredKeys(s: seq<Bytes>)
    requires Stored(s)
    ensures AllHaveKeys(s) && AllExact(s)
  {
    forall i | 0 <= i < |s|
      ensures HasKey(s[i]) && Exact(s[i])
    {
      assert s[i] in s;
      FitsWhole(s[i]);
    }
    AllExactFrom(s);
  }

  // ------------------------------------------------------------------
  // Lookup
  // ------------------------------------------------------------------

  /** The value a sorted buffer holds for user key k: the value of the record at k's lower bound, if that record has key k. */
  function Lookup(s: seq<Bytes>, k: Bytes): (r: Option<Bytes>)
    ensures r.Some? ==> exists i :: 0 <= i < |s| && UserKey(s[i]) == k && r.value == UserValue(s[i])
  {
    var i := LowerBound(Keys(s), k);
    if i < |s| && UserKey(s[i]) == k then Some(UserValue(s[i])) else None
  }

  /** A record with key k anywhere in a sorted buffer is the one Lookup finds. */
  lemma {:induction false} LookupAt(s: seq<Bytes>, k: Bytes, j: nat)
    requires Sorted(Keys(s)) && j < |s| && UserKey(s[j]) == k
    ensures Lookup(s, k) == Some(UserValue(s[j]))
  {
    KeyAtLowerBound(Keys(s), k, j);
  }

  /** Lookup finds a value exactly for the keys the buffer holds. */
  lemma {:induction false} LookupFinds(s: seq<Bytes>, k: Bytes)
    requires Sorted(Keys(s))
    ensures Lookup(s, k).Some? <==> k in Keys(s)
  {
    ContainsAtLowerBound(Keys(s), k);
  }

  /** After Insert(Record(k, v)), k is found with value v and every other key as before. */
  lemma {:induction false} LookupInsert(s: seq<Bytes>, k: Bytes, v: Bytes, k': Bytes)
    requires AllHaveKeys(s) && Sorted(Keys(s))
    requires |k| < TWO32 && |v| < TWO32 && |Record(k, v)| < TWO32
    ensures Lookup(InsertSorted(s, Record(k, v)), k') == if k' == k then Some(v) else Lookup(s, k')
  {
    var r := Record(k, v);
    RecordFits(k, v);
    var t := InsertSorted(s, r);
    InsertSortedProperties(s, r);
    var kt := Keys(t);
    if k' == k {
      assert k in kt;
      var j :| 0 <= j < |t| && kt[j] == k;
      assert t[j] == r;
      LookupAt(t, k, j);
    } else if k' in Keys(s) {
      var i :| 0 <= i < |s| && Keys(s)[i] == k';
      LookupAt(s, k', i);
      assert s[i] in t;
      var j :| 0 <= j < |t| && t[j] == s[i];
      LookupAt(t, k', j);
    } else {
      LookupFinds(s, k');
      LookupFinds(t, k');
    }
  }

  /** The newer of two answers: the income buffer's, else the flush buffer's. */
  function Newest(a: Option<Bytes>, b: Option<Bytes>): Option<Bytes> {
    if a.Some? then a else b
  }
  // ------------------------------------------------------------------
  // Steps of Flush
  // ------------------------------------------------------------------

  lemma {:induction false} ModAdd(a: nat, b: nat)
    ensures (a % TWO32 + b) % TWO32 == (a + b) % TWO32
  {
  }

  /** A varint32 takes at most five bytes, so it fits encoded_uint32[6]. */
  lemma {:induction false} Varint32Short(v: uint32)
    ensures |Leb128(v)| <= 5
  {
    assert |Varint32Bytes(v)| <= 5;
  }

  /** The entries the entry loop has written before the i-th. */
  function Written(content: seq<Bytes>, i: nat): Bytes
    requires i <= |content|
  {
    Concat(content[..i])
  }

  /** The entry loop appends one entry to the data written so far. */
  lemma {:induction false} WrittenStep(content: seq<Bytes>, i: nat)
    requires i < |content|
    ensures Written(content, i + 1) == Written(content, i) + content[i]
  {
    var p := content[..i + 1];
    assert p[..|p| - 1] == content[..i] && p[|p| - 1] == content[i];
  }

  /** What the entry loop still records once the entries before the i-th are done, from position p. */
  function Pending(ks: seq<Bytes>, content: seq<Bytes>, i: nat, p: nat, m: KeyOffset): KeyOffset
    requires |ks| == |content| && i <= |ks|
  {
    Assign(ks[i..], content[i..], p, m)
  }

  /** key_offset[user_key] = offset for the i-th entry. */
  lemma {:induction false} PendingStep(ks: seq<Bytes>, content: seq<Bytes>, i: nat, p: nat, m: KeyOffset, p': nat, m': KeyOffset)
    requires |ks| == |content| && i < |ks|
    requires p' == p + |content[i]| && m' == m[ks[i] := p % TWO32]
    ensures Pending(ks, content, i, p, m) == Pending(ks, content, i + 1, p', m')
  {
    AssignStep(ks[i..], content[i..], p, m);
    assert ks[i..][1..] == ks[i + 1..] && content[i..][1..] == content[i + 1..];
  }

  /** Writing one more item of the index extends the segment by that item. */
  lemma {:induction false} SegmentStep(content: seq<Bytes>, dataSize: nat, order: seq<Bytes>, m: KeyOffset, k: Bytes)
    requires Bounded(content) && Writable(order, m) && k in m && |k| < TWO32
    ensures Writable(order + [k], m)
    ensures Segment(content, dataSize, order + [k], m) == Segment(content, dataSize, order, m) + IndexEntry(k, m[k])
  {
    var o := order + [k];
    assert o[..|o| - 1] == order;
    var p := Header(content) + Fixed32Bytes(IndexOffset(content, dataSize)) + Concat(content);
    Associative(p, IndexSection(order, m), IndexEntry(k, m[k]));
  }

  lemma {:induction false} Append3(s: Bytes, a: Bytes, b: Bytes, c: Bytes)
    ensures s + a + b + c == s + (a + b + c)
  {
    Associative(s, a, b);
    Associative(s, a + b, c);
  }
  // ------------------------------------------------------------------
  // The three parts of Flush
  // ------------------------------------------------------------------

  /** The first four bytes EncodeFixed32 wrote. */
  lemma {:induction false} FixedWritten(b: Bytes, v: uint32, none: Bytes, rest: Bytes)
    requires none == [] && b == none + Fixed32Bytes(v) + rest
    ensures |b| >= 4 && b[..4] == Fixed32Bytes(v)
  {
    assert b == Fixed32Bytes(v) + rest;
  }

  /** The index offset in terms of the header that was written. */
  lemma {:induction false} IndexOffsetOf(content: seq<Bytes>, dataSize: uint32, h: Bytes, offset: uint32)
    requires Bounded(content) && h == Header(content) && offset == |h| % TWO32
    ensures (offset + 4 + dataSize) % TWO32 == IndexOffset(content, dataSize)
  {
    ModAdd(|h|, 4 + dataSize);
  }

  /** Flush, first part: the key sections of the first and last entry, then index_offset as a fixed32. */
  method WriteHeader(content: seq<Bytes>, dataSize: uint32) returns (stream: Bytes, offset: uint32)
    requires Bounded(content)
    ensures stream == Header(content) + Fixed32Bytes(IndexOffset(content, dataSize))
    ensures offset == |stream| % TWO32
  {
    stream, offset := WriteBounds(content);
    ghost var h := stream;
    var encoded := new uint8[6];
    var indexOffset := (offset + 4 + dataSize) % TWO32;
    IndexOffsetOf(content, dataSize, h, offset);
    EncodeFixed32(encoded, 0, indexOffset);
    FixedWritten(encoded[..], indexOffset, encoded[..0], encoded[4..]);
    stream := stream + encoded[..4];
    ModAdd(|h|, 4);
    offset := (offset + 4) % TWO32;
  }

  /** The key sections of the lower and the upper entry, and the offset after them. */
  method WriteBounds(content: seq<Bytes>) returns (stream: Bytes, offset: uint32)
    requires Bounded(content)
    ensures stream == Header(content) && offset == |stream| % TWO32
  {
    offset := 0;
    var len, keySize := ReadKeySection(content[0]);
    stream := content[0][..len + keySize];
    offset := (offset + len + keySize) % TWO32;
    ghost var a := len + keySize;
    len, keySize := ReadKeySection(content[|content| - 1]);
    stream := stream + content[|content| - 1][..len + keySize];
    offset := (offset + len + keySize) % TWO32;
    ModAdd(a, len + keySize);
  }

  /** GetVarint32(p, 5, &key_size) on an entry: the varint's length and the key's size. */
  method ReadKeySection(e: Bytes) returns (len: int, keySize: uint32)
    requires HasKey(e)
    ensures 0 <= len && len + keySize == KeyEnd(e) && e[..len + keySize] == KeyPart(e)
  {
    len, keySize := GetVarint32(e, 5);
  }

  /**
   * Flush, second part: every entry written after the header, its user key
   * mapped to the 32-bit offset where it starts.
   */
  method WriteEntries(content: seq<Bytes>, keyOffset: KeyOffset, stream0: Bytes, offset0: uint32)
    returns (stream: Bytes, offsets: KeyOffset)
    requires AllHaveKeys(content) && offset0 == |stream0| % TWO32
    ensures stream == stream0 + Concat(content)
    ensures offsets == Recorded(content, |stream0|, keyOffset)
  {
    ghost var ks := Keys(content);
    ghost var target := Recorded(content, |stream0|, keyOffset);
    stream, offsets := stream0, keyOffset;
    var offset := offset0;
    var i := 0;
    while i < |content|
      invariant 0 <= i <= |content|
      invariant stream == stream0 + Written(content, i)
      invariant offset == |stream| % TWO32
      invariant Pending(ks, content, i, |stream|, offsets) == target
    {
      var entry := content[i];
      EntriesStep(content, ks, target, stream0, i, stream, offset, offsets);
      var userKey := ExtractUserKey(entry);
      offsets := offsets[userKey := offset];
      stream := stream + entry;
      offset := (offset + |entry|) % TWO32;
      i := i + 1;
    }
    assert content[..i] == content;
    assert ks[i..] == [];
  }

  /** EncodeVarint32 into encoded_uint32[6], and the bytes from its start to the returned pointer. */
  method WriteVarint32(v: uint32) returns (b: Bytes)
    ensures b == Varint32Bytes(v)
  {
    var encoded := new uint8[6];
    Varint32Short(v);
    var end := EncodeVarint32(encoded, 0, v);
    b := encoded[..end];
    assert encoded[..] == encoded[..0] + Leb128(v) + encoded[end..];
  }

  /** Every key Flush records is a user key, shorter than 2^32 bytes, or was in key_offset before. */
  lemma {:induction false} RecordedKeys(content: seq<Bytes>, start: nat, m: KeyOffset)
    requires AllHaveKeys(content) && forall k :: k in m ==> |k| < TWO32
    ensures forall k :: k in Recorded(content, start, m) ==> |k| < TWO32
  {
    var ks := Keys(content);
    AssignKeys(ks, content, start, m);
    forall k | k in ks
      ensures |k| < TWO32
    {
      var i :| 0 <= i < |ks| && ks[i] == k;
      assert HasKey(content[i]);
    }
  }

  /** One turn of the entry loop keeps its invariant. */
  lemma {:induction false} EntriesStep(content: seq<Bytes>, ks: seq<Bytes>, target: KeyOffset, stream0: Bytes,
                                       i: nat, stream: Bytes, offset: uint32, offsets: KeyOffset)
    requires AllHaveKeys(content) && ks == Keys(content) && i < |content|
    requires stream == stream0 + Written(content, i) && offset == |stream| % TWO32
    requires Pending(ks, content, i, |stream|, offsets) == target
    ensures HasKey(content[i]) && ExtractUserKey(content[i]) == ks[i]
    ensures stream + content[i] == stream0 + Written(content, i + 1)
    ensures (offset + |content[i]|) % TWO32 == |stream + content[i]| % TWO32
    ensures Pending(ks, content, i + 1, |stream + content[i]|, offsets[ks[i] := offset]) == target
  {
    var e := content[i];
    PendingStep(ks, content, i, |stream|, offsets, |stream + e|, offsets[ks[i] := offset]);
    WrittenStep(content, i);
    Associative(stream0, Written(content, i), e);
    ModAdd(|stream|, |e|);
  }

  /** The index loop has written the keys of order and has the keys of remaining still to write. */
  predicate Walked(m: KeyOffset, order: seq<Bytes>, remaining: set<Bytes>) {
    && remaining <= m.Keys
    && (forall k :: k in order ==> k in m && k !in remaining)
    && (forall k :: k in m ==> k in order || k in remaining)
    && (forall i, j :: 0 <= i < j < |order| ==> order[i] != order[j])
  }

  lemma {:induction false} WalkStep(m: KeyOffset, order: seq<Bytes>, remaining: set<Bytes>, k: Bytes)
    requires Walked(m, order, remaining) && k in remaining
    ensures Walked(m, order + [k], remaining - {k})
  {
  }

  lemma {:induction false} WalkDone(m: KeyOffset, order: seq<Bytes>)
    requires Walked(m, order, {})
    ensures Lists(order, m)
  {
  }

  /** Flush, third part: every key of key_offset, in the map's own order, with its offset. */
  method WriteIndex(content: seq<Bytes>, dataSize: uint32, offsets: KeyOffset, stream0: Bytes)
    returns (stream: Bytes, ghost order: seq<Bytes>)
    requires Bounded(content) && forall k :: k in offsets ==> |k| < TWO32
    requires stream0 == Header(content) + Fixed32Bytes(IndexOffset(content, dataSize)) + Concat(content)
    ensures Writable(order, offsets) && Lists(order, offsets)
    ensures stream == Segment(content, dataSize, order, offsets)
  {
    stream, order := stream0, [];
    assert stream0 + [] == stream0;
    var remaining := offsets.Keys;
    while remaining != {}
      invariant Walked(offsets, order, remaining) && Writable(order, offsets)
      invariant stream == Segment(content, dataSize, order, offsets)
      decreases |remaining|
    {
      var k :| k in remaining;
      var a := WriteVarint32(|k|);
      var b := WriteVarint32(offsets[k]);
      IndexStep(content, dataSize, offsets, order, stream, k, a, b);
      WalkStep(offsets, order, remaining, k);
      stream := stream + a + k + b;
      order := order + [k];
      remaining := remaining - {k};
    }
    WalkDone(offsets, order);
  }

  /** One item of the index loop extends the segment by that item. */
  lemma {:induction false} IndexStep(content: seq<Bytes>, dataSize: uint32, m: KeyOffset, order: seq<Bytes>,
                                     stream: Bytes, k: Bytes, a: Bytes, b: Bytes)
    requires Bounded(content) && Writable(order, m) && k in m && |k| < TWO32
    requires stream == Segment(content, dataSize, order, m)
    requires a == Varint32Bytes(|k|) && b == Varint32Bytes(m[k])
    ensures Writable(order + [k], m)
    ensures stream + a + k + b == Segment(content, dataSize, order + [k], m)
  {
    assert a + k + b == IndexEntry(k, m[k]);
    SegmentStep(content, dataSize, order, m, k);
    Append3(stream, a, k, b);
  }

  // ------------------------------------------------------------------
  // Steps of Add, Get and FlushBuffer
  // ------------------------------------------------------------------

  /** Writing src at pos leaves dst[start..pos] alone and puts src right after it. */
  method Append(dst: array<uint8>, start: nat, pos: nat, src: Bytes, ghost acc: Bytes) returns (end: nat)
    requires start <= pos && pos + |src| <= dst.Length && dst[start..pos] == acc
    modifies dst
    ensures end == pos + |src| && dst[start..end] == acc + src
  {
    ghost var before := dst[..];
    end := WriteBytes(dst, pos, src);
    assert dst[start..end] == (before[..pos] + src)[start..end];
    assert before[..pos][start..pos] == acc;
  }

  /** income_memory_->Allocate(encoded_len): the block and offset of n bytes handed out. */
  method Reserve(memory: Memory, n: nat) returns (buf: array<uint8>, o: nat)
    requires memory.Valid() && n > 0
    modifies memory
    ensures memory.Valid() && o + n <= buf.Length
    ensures buf in old(memory.blocks) || fresh(buf)
  {
    var place := memory.Allocate(n);
    assert memory.regions[|memory.regions| - 1] == Region(place.block, place.offset, n);
    buf, o := memory.blocks[place.block], place.offset;
    if place.block < |old(memory.blocks)| {
      assert buf == old(memory.blocks)[place.block];
    }
  }

  /** The EncodeVarint32 and memcpy calls of Add: the record of key and value at buf[o..]. */
  method Fill(buf: array<uint8>, o: nat, key: Bytes, value: Bytes) returns (end: nat)
    requires |key| < TWO32 && |value| < TWO32 && o + |Record(key, value)| <= buf.Length
    modifies buf
    ensures end == o + |Record(key, value)| && buf[o..end] == Record(key, value)
  {
    var p := Append(buf, o, o, Varint32Bytes(|key|), []);
    p := Append(buf, o, p, key, Varint32Bytes(|key|));
    p := Append(buf, o, p, Varint32Bytes(|value|), WrappedKey(key));
    end := Append(buf, o, p, value, WrappedKey(key) + Varint32Bytes(|value|));
  }

  /**
   * Add's encoding: encoded_len bytes from the arena, filled with the record
   * of key and value; None, with the arena untouched, when the 32-bit
   * encoded_len wraps.
   */
  method EncodeRecord(memory: Memory, key: Bytes, value: Bytes) returns (record: Option<Bytes>)
    requires memory.Valid() && |key| < TWO32 && |value| < TWO32
    modifies memory, memory.blocks
    ensures memory.Valid()
    ensures record.Some? <==> Encodable(key, value)
    ensures record.Some? ==> record.value == Record(key, value)
    ensures record.None? ==> unchanged(memory)
  {
    var keyLength := VarintLength(|key|);
    var valueLength := VarintLength(|value|);
    var length := keyLength + |key| + valueLength + |value|;
    var encodedLen := length % TWO32;
    if encodedLen != length {
      return None;
    }
    var buf, o := Reserve(memory, encodedLen);
    var end := Fill(buf, o, key, value);
    record := Some(buf[o..end]);
  }

  /** Seek for the wrapped key in one list: the value of the record with that key, if there is one. */
  method SeekValue(list: SkipList, target: Bytes, ghost key: Bytes) returns (found: bool, value: Bytes)
    requires list.Valid() && Stored(list.elems) && |key| < TWO32 && target == WrappedKey(key)
    ensures found <==> Lookup(list.elems, key).Some?
    ensures found ==> value == Lookup(list.elems, key).value
  {
    WrappedKeyParses(key, []);
    assert target + [] == target;
    var it := new Iterator(list);
    it.Seek(target);
    LookupFinds(list.elems, key);
    found := it.Valid();
    value := [];
    if found {
      ghost var i := LowerBound(Keys(list.elems), key);
      NodeKey(list.keys, list.next, list.maxHeight, list.order, list.pos, list.elems, list.hs, i);
      var e := it.Key();
      assert e in list.elems;
      FitsWhole(e);
      value := ExtractUserValue(e);
    }
  }

  /** One turn of FlushBuffer's loop: the i-th record is copied whole and its size added in 32 bits. */
  lemma {:induction false} CollectStep(elems: seq<Bytes>, content: seq<Bytes>, total: nat, e: Bytes)
    requires |content| < |elems| && content == elems[..|content|] && e == elems[|content|]
    requires IsRecord(e) && EntrySize(e) == |e| && e[..EntrySize(e)] == e
    requires total == |Written(elems, |content|)|
    ensures content + [e[..EntrySize(e)]] == elems[..|content| + 1]
    ensures total + |e| == |Written(elems, |content| + 1)|
  {
    var i := |content|;
    WrittenStep(elems, i);
    assert elems[..i + 1] == elems[..i] + [elems[i]];
  }

  /** Unsigned 32-bit addition: the sum wraps around at 2^32. */
  function Plus32(a: uint32, b: nat): uint32 {
    (a + b) % TWO32
  }

  /** flush_size += entry_size, in 32-bit arithmetic. */
  method AddSize(flushSize: uint32, entrySize: uint32, ghost total: nat) returns (r: uint32)
    requires flushSize == total % TWO32
    ensures r == (total + entrySize) % TWO32
  {
    ModAdd(total, entrySize);
    r := (flushSize + entrySize) % TWO32;
  }

  /** it.key() and it.Next() at the i-th position of the walk. */
  method Take(it: Iterator, ghost i: nat) returns (e: Bytes)
    requires it.Attached() && i < |it.list.elems| && it.node == it.list.order[i]
    modifies it
    ensures it.Attached() && e == it.list.elems[i]
    ensures it.node == if i + 1 == |it.list.elems| then Nil else it.list.order[i + 1]
  {
    var list := it.list;
    NodeKey(list.keys, list.next, list.maxHeight, list.order, list.pos, list.elems, list.hs, i);
    e := it.Key();
    it.Next();
  }

  /**
   * The rest of one turn of FlushBuffer's loop: the record copied whole
   * (EntrySize of a stored record is its length) and its size added to
   * flush_size.
   */
  method Accumulate(ghost elems: seq<Bytes>, content: seq<Bytes>, flushSize: uint32, ghost total: nat, e: Bytes)
    returns (content': seq<Bytes>, flushSize': uint32, ghost total': nat)
    requires |content| < |elems| && content == elems[..|content|] && e == elems[|content|]
    requires IsRecord(e) && EntrySize(e) == |e| && e[..EntrySize(e)] == e
    requires total == |Written(elems, |content|)| && flushSize == total % TWO32
    ensures |content'| == |content| + 1 && content' == elems[..|content'|]
    ensures total' == |Written(elems, |content'|)| && flushSize' == total' % TWO32
  {
    CollectStep(elems, content, total, e);
    var entrySize := EntrySize(e);
    content' := content + [e[..entrySize]];
    flushSize' := AddSize(flushSize, entrySize, total);
    total' := total + entrySize;
  }

  /** FlushBuffer's loop: every record of the list in key order, and their total size in 32 bits. */
  method Collect(list: SkipList) returns (content: seq<Bytes>, flushSize: uint32)
    requires list.Valid() && Stored(list.elems)
    ensures content == list.elems && flushSize == DataSize(content) % TWO32
  {
    var it := new Iterator(list);
    it.SeekToFirst();
    content, flushSize := [], 0;
    ghost var total: nat := 0;
    while it.Valid()
      invariant it.Attached() && it.list == list
      invariant |content| <= |list.elems| && content == list.elems[..|content|]
      invariant it.node == if |content| == |list.elems| then Nil else list.order[|content|]
      invariant total == |Written(list.elems, |content|)| && flushSize == total % TWO32
      decreases |list.elems| - |content|
    {
      content, flushSize, total := CollectOne(it, content, flushSize, total);
    }
    assert list.elems[..|list.elems|] == list.elems;
  }

  /** One turn of Collect's loop: the record under the iterator is taken and the iterator moves on. */
  method CollectOne(it: Iterator, content: seq<Bytes>, flushSize: uint32, ghost total: nat)
    returns (content': seq<Bytes>, flushSize': uint32, ghost total': nat)
    requires it.Attached() && Stored(it.list.elems)
    requires |content| < |it.list.elems| && content == it.list.elems[..|content|] && it.node == it.list.order[|content|]
    requires total == |Written(it.list.elems, |content|)| && flushSize == total % TWO32
    modifies it
    ensures it.Attached() && |content'| == |content| + 1 && content' == it.list.elems[..|content'|]
    ensures it.node == if |content'| == |it.list.elems| then Nil else it.list.order[|content'|]
    ensures total' == |Written(it.list.elems, |content'|)| && flushSize' == total' % TWO32
  {
    var e := Take(it, |content|);
    assert e in it.list.elems;
    FitsWhole(e);
    content', flushSize', total' := Accumulate(it.list.elems, content, flushSize, total, e);
  }

  /**
   * The allocation, encoding and Insert of Add, on one list: returns
   * encoded_len; ok is false, and the list unchanged, when encoded_len wraps.
   */
  method InsertRecord(list: SkipList, key: Bytes, value: Bytes) returns (ok: bool, encodedLen: nat)
    requires list.Valid() && Stored(list.elems)
    requires |key| < TWO32 && |value| < TWO32
    modifies list, list.rnd, list.memory, list.memory.blocks
    ensures list.Valid() && Stored(list.elems)
    ensures ok <==> Encodable(key, value)
    ensures ok ==> list.elems == InsertSorted(old(list.elems), Record(key, value))
    ensures ok ==> encodedLen == |Record(key, value)|
    ensures !ok ==> list.elems == old(list.elems)
  {
    var record := EncodeRecord(list.memory, key, value);
    if record.None? {
      return false, 0;
    }
    RecordFits(key, value);
    StoredInsert(list.elems, record.value);
    list.Insert(record.value);
    ok, encodedLen := true, |record.value|;
  }

  /**
   * What FlushBuffer writes for a flush list under 4 GiB is the segment file
   * of its records: data_size does not wrap, so the Segments read-back
   * lemmas apply to it.
   */
  lemma {:induction false} FlushedSegment(content: seq<Bytes>, order: seq<Bytes>, m: KeyOffset)
    requires Stored(content) && Sorted(Keys(content)) && content != [] && Writable(order, m)
    ensures Flushable(content)
    ensures Small(content) ==> Segment(content, DataSize(content) % TWO32, order, m) == FlushedFile(content, order, m)
  {
    StoredKeys(content);
    if Small(content) {
      SmallData(content, order, m);
    }
  }

  /** Under 4 GiB the 32-bit data_size is the length of the entries. */
  lemma {:induction false} SmallData(content: seq<Bytes>, order: seq<Bytes>, m: KeyOffset)
    requires Bounded(content) && Writable(order, m) && Small(content)
    ensures Segment(content, DataSize(content) % TWO32, order, m) == Segment(content, DataSize(content), order, m)
  {
    var d := DataSize(content);
    assert d % TWO32 == d;
  }

  /** new Memory() and a new skip list over it. */
  method NewBuffer() returns (memory: Memory, list: SkipList)
    ensures fresh(memory) && fresh(list) && fresh(list.rnd) && list.memory == memory
    ensures list.Valid() && list.elems == [] && Stored(list.elems)
  {
    memory := new Memory();
    list := new SkipList(memory);
  }

  // ------------------------------------------------------------------
  // The buffer
  // ------------------------------------------------------------------

  class StorageBuffer {
    const bufferSize: uint32
    var incomeSize: uint32
    var incomeBuffer: SkipList
    var flushBuffer: SkipList?
    var flushThreadReady: bool
    var flushBufferReady: bool

    ghost function IncomeObjects(): set<object>
      reads this
    {
      {incomeBuffer, incomeBuffer.rnd, incomeBuffer.memory}
    }

    ghost function FlushObjects(): set<object>
      reads this
    {
      if flushBuffer == null then {} else {flushBuffer, flushBuffer.rnd, flushBuffer.memory}
    }

    /**
     * Each skip list allocates from its own arena and holds records Add
     * encoded; the two lists share no object.
     */
    ghost predicate Valid()
      reads this, IncomeObjects(), FlushObjects()
    {
      && incomeBuffer.Valid() && Stored(incomeBuffer.elems)
      && (flushBuffer != null ==>
            && flushBuffer.Valid() && Stored(flushBuffer.elems)
            && IncomeObjects() !! FlushObjects())
    }

    /** The records of the income buffer, in key order. */
    ghost function Income(): seq<Bytes>
      reads this, incomeBuffer
    {
      incomeBuffer.elems
    }

    /** The records of the flush buffer, none when there is no flush buffer. */
    ghost function Flushing(): seq<Bytes>
      reads this, flushBuffer
    {
      if flushBuffer == null then [] else flushBuffer.elems
    }

    /** A buffer with an empty income list in a new arena, no flush buffer, both flags false. */
    constructor (bufferSize: uint32)
      ensures Valid() && fresh(IncomeObjects())
      ensures this.bufferSize == bufferSize && incomeSize == 0 && Income() == []
      ensures flushBuffer == null && !flushThreadReady && !flushBufferReady
    {
      var memory, list := NewBuffer();
      this.bufferSize := bufferSize;
      incomeSize, incomeBuffer, flushBuffer := 0, list, null;
      flushThreadReady, flushBufferReady := false, false;
    }

    /** SetFlushThreadIdle: the flush thread is ready for the next buffer. */
    method SetFlushThreadIdle()
      modifies this
      ensures flushThreadReady
      ensures incomeSize == old(incomeSize) && incomeBuffer == old(incomeBuffer) && flushBuffer == old(flushBuffer)
      ensures flushBufferReady == old(flushBufferReady)
    {
      flushThreadReady := true;
    }

    /** SetFlushThreadBusy: the flush thread has a buffer to write. */
    method SetFlushThreadBusy()
      modifies this
      ensures !flushThreadReady
      ensures incomeSize == old(incomeSize) && incomeBuffer == old(incomeBuffer) && flushBuffer == old(flushBuffer)
      ensures flushBufferReady == old(flushBufferReady)
    {
      flushThreadReady := false;
    }

    /** FlushBufferReady: a flush buffer is waiting to be written. */
    method FlushBufferReady() returns (ready: bool)
      ensures ready == flushBufferReady
    {
      ready := flushBufferReady;
    }

    /** BufferSize: the threshold the income buffer must pass before it is swapped. */
    method BufferSize() returns (size: uint32)
      ensures size == bufferSize
    {
      size := bufferSize;
    }

    /**
     * SwapBuffer: the income list and its arena become the flush buffer
     * (a flush buffer still there is dropped), and a new empty income list
     * in a new arena takes their place.
     */
    method SwapBuffer()
      requires Valid()
      modifies this
      ensures Valid() && fresh(IncomeObjects())
      ensures flushBuffer == old(incomeBuffer)
      ensures Flushing() == old(Income()) && Income() == []
      ensures incomeSize == 0 && flushBufferReady && flushThreadReady == old(flushThreadReady)
    {
      ghost var income := incomeBuffer;
      var memory, list := NewBuffer();
      assert income.Valid() && Stored(income.elems);
      incomeSize, flushBuffer, incomeBuffer, flushBufferReady := 0, incomeBuffer, list, true;
      assert IncomeObjects() !! FlushObjects();
    }

    /** ClearFlushBuffer: the flush buffer and its arena are released. */
    method ClearFlushBuffer()
      requires Valid()
      modifies this
      ensures Valid() && Flushing() == [] && flushBuffer == null && !flushBufferReady
      ensures incomeBuffer == old(incomeBuffer)
      ensures incomeSize == old(incomeSize) && flushThreadReady == old(flushThreadReady)
    {
      flushBufferReady, flushBuffer := false, null;
    }

    /**
     * Add: the record of key and value goes into the income list and its
     * length is added to income_size (in 32 bits). When that passes
     * buffer_size and the flush thread is idle, the income list becomes the
     * flush buffer. The order type is not looked at: a delete arrives here
     * as a put of the tomb value. Key and value are ByteArrays, whose size
     * is a uint32_t; ok is false, and nothing changes, when the record's
     * 32-bit encoded_len wraps.
     */
    method Add(orderType: OrderType, key: Bytes, value: Bytes) returns (ok: bool)
      requires Valid() && |key| < TWO32 && |value| < TWO32
      modifies this, incomeBuffer, incomeBuffer.rnd, incomeBuffer.memory, incomeBuffer.memory.blocks
      ensures Valid()
      ensures ok <==> Encodable(key, value)
      ensures !ok ==>
        && Income() == old(Income()) && incomeBuffer == old(incomeBuffer)
        && flushBuffer == old(flushBuffer) && Flushing() == old(Flushing())
        && incomeSize == old(incomeSize) && flushThreadReady == old(flushThreadReady)
        && flushBufferReady == old(flushBufferReady)
      ensures ok ==> var inserted := InsertSorted(old(Income()), Record(key, value));
              var size := Plus32(old(incomeSize), |Record(key, value)|);
              if size > bufferSize && old(flushThreadReady) then
                && Flushing() == inserted && Income() == [] && fresh(IncomeObjects())
                && incomeSize == 0 && !flushThreadReady && flushBufferReady
              else
                && Income() == inserted && incomeBuffer == old(incomeBuffer)
                && flushBuffer == old(flushBuffer) && Flushing() == old(Flushing())
                && incomeSize == size && flushThreadReady == old(flushThreadReady)
                && flushBufferReady == old(flushBufferReady)
    {
      ok := Insert(key, value);
      if ok {
        SwapIfFull();
      }
    }

    /** The second half of Add: swap when income_size passed buffer_size and the flush thread is idle. */
    method SwapIfFull()
      requires Valid()
      modifies this
      ensures Valid()
      ensures if old(incomeSize) > bufferSize && old(flushThreadReady) then
                && Flushing() == old(Income()) && Income() == [] && fresh(IncomeObjects())
                && incomeSize == 0 && !flushThreadReady && flushBufferReady
              else
                && incomeBuffer == old(incomeBuffer) && flushBuffer == old(flushBuffer)
                && incomeSize == old(incomeSize) && flushThreadReady == old(flushThreadReady)
                && flushBufferReady == old(flushBufferReady)
    {
      if incomeSize > bufferSize && flushThreadReady {
        SetFlushThreadBusy();
        SwapBuffer();
      }
    }

    /** The first half of Add: encode, insert, count; nothing changes when encoded_len wraps. */
    method Insert(key: Bytes, value: Bytes) returns (ok: bool)
      requires Valid() && |key| < TWO32 && |value| < TWO32
      modifies this, incomeBuffer, incomeBuffer.rnd, incomeBuffer.memory, incomeBuffer.memory.blocks
      ensures Valid()
      ensures ok <==> Encodable(key, value)
      ensures Income() == if ok then InsertSorted(old(Income()), Record(key, value)) else old(Income())
      ensures incomeSize == if ok then Plus32(old(incomeSize), |Record(key, value)|) else old(incomeSize)
      ensures incomeBuffer == old(incomeBuffer)
      ensures flushBuffer == old(flushBuffer)
      ensures Flushing() == old(Flushing())
      ensures flushThreadReady == old(flushThreadReady) && flushBufferReady == old(flushBufferReady)
    {
      var encodedLen;
      ok, encodedLen := InsertRecord(incomeBuffer, key, value);
      if ok {
        Count(encodedLen);
      }
    }

    /** income_size grows by n bytes, in 32 bits. */
    method Count(n: nat)
      requires Valid()
      modifies this
      ensures Valid() && incomeSize == Plus32(old(incomeSize), n)
      ensures incomeBuffer == old(incomeBuffer) && flushBuffer == old(flushBuffer)
      ensures flushThreadReady == old(flushThreadReady) && flushBufferReady == old(flushBufferReady)
    {
      incomeSize := Plus32(incomeSize, n);
    }

    /**
     * Get: the value of key in the income list, else in the flush list;
     * status 0 when one of them holds the key, -1 and value_out untouched
     * otherwise.
     */
    method Get(key: Bytes, valueOut: Bytes) returns (status: int, value: Bytes)
      requires Valid() && |key| < TWO32
      ensures var found := Newest(Lookup(Income(), key), Lookup(Flushing(), key));
              if found.Some? then status == 0 && value == found.value
              else status == -1 && value == valueOut
    {
      var temp := WrapUserKey(key);
      var target := temp[..];
      status, value := -1, valueOut;
      var found, v := SeekValue(incomeBuffer, target, key);
      if found {
        status, value := 0, v;
      }
      if status != 0 && flushBuffer != null {
        found, v := SeekValue(flushBuffer, target, key);
        if found {
          status, value := 0, v;
        }
      }
    }

    /**
     * FlushBuffer: the records of the flush list in key order, their total
     * length in 32 bits as data_size, written out by Flush.
     */
    method FlushBuffer(keyOffset: KeyOffset)
      returns (stream: Bytes, offsets: KeyOffset, ghost content: seq<Bytes>, ghost order: seq<Bytes>)
      requires Valid() && flushBuffer != null && Flushing() != []
      requires forall k :: k in keyOffset ==> |k| < TWO32
      ensures content == Flushing() && Stored(content) && Sorted(Keys(content)) && Bounded(content)
      ensures offsets == Recorded(content, |Header(content)| + 4, keyOffset)
      ensures Writable(order, offsets) && Lists(order, offsets)
      ensures stream == Segment(content, DataSize(content) % TWO32, order, offsets)
    {
      var entries, flushSize := Collect(flushBuffer);
      StoredKeys(entries);
      stream, offsets, order := Flush(entries, keyOffset, flushSize);
      content := entries;
    }

    /** Flush: the segment file for content, and key_offset with every entry's offset recorded. */
    method Flush(content: seq<Bytes>, keyOffset: KeyOffset, dataSize: uint32)
      returns (stream: Bytes, offsets: KeyOffset, ghost order: seq<Bytes>)
      requires Bounded(content) && AllHaveKeys(content)
      requires forall k :: k in keyOffset ==> |k| < TWO32
      ensures offsets == Recorded(content, |Header(content)| + 4, keyOffset)
      ensures Writable(order, offsets) && Lists(order, offsets)
      ensures stream == Segment(content, dataSize, order, offsets)
    {
      var offset;
      stream, offset := WriteHeader(content, dataSize);
      stream, offsets := WriteEntries(content, keyOffset, stream, offset);
      RecordedKeys(content, |Header(content)| + 4, keyOffset);
      stream, order := WriteIndex(content, dataSize, offsets, stream);
    }
  }
}
