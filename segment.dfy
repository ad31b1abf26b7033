/**
 * The segment file format: what StorageBuffer::Flush writes
 * (db/storage_buffer.cpp) and what the storage engine reads back
 * (db/storage_engine.cpp, db/file.h).
 *
 *   varint(|lower|) lower varint(|upper|) upper   the header: the user keys of
 *                                                 the first and last entries
 *   fixed32(index_offset)                         where the index section starts
 *   entry entry ...                               the records, in key order
 *   varint(|key|) key varint(offset) ...          the index section, one item
 *                                                 per key, in any order
 *
 * The header reads as a record whose key is the lower bound and whose value
 * is the upper bound, which is how both the engine and compaction skip it.
 */
module Segments {
  import opened Wrappers
  import opened Coding
  import opened Utils
  import opened SkipListSpec

  /** The std::unordered_map<std::string, uint32_t> from user key to entry offset. */
  type KeyOffset = map<Bytes, uint32>

  /** A record and nothing after it: what the write buffer stores and compaction copies. */
  predicate Exact(e: Bytes) {
    IsRecord(e) && e == Record(ExtractUserKey(e), ExtractUserValue(e))
  }

  lemma {:induction false} RecordExact(k: Bytes, v: Bytes)
    requires |k| < TWO32 && |v| < TWO32
    ensures Exact(Record(k, v))
    ensures ExtractUserKey(Record(k, v)) == k && ExtractUserValue(Record(k, v)) == v
  {
    RecordParses(k, v, []);
    assert Record(k, v) + [] == Record(k, v);
  }

  /** An exact record followed by anything reads back as itself. */
  lemma {:induction false} ExactParses(e: Bytes, rest: Bytes)
    requires Exact(e)
    ensures IsRecord(e + rest) && RecordSize(e + rest) == |e|
    ensures KeyEnd(e + rest) == KeyEnd(e)
    ensures ExtractUserKey(e + rest) == ExtractUserKey(e)
    ensures ExtractUserValue(e + rest) == ExtractUserValue(e)
  {
    var k, v := ExtractUserKey(e), ExtractUserValue(e);
    RecordParses(k, v, rest);
    RecordParses(k, v, []);
    assert Record(k, v) + [] == Record(k, v);
  }

  /** The key section of an exact record is the wrapped user key. */
  lemma {:induction false} ExactKeyPart(e: Bytes)
    requires Exact(e)
    ensures e[..KeyEnd(e)] == WrappedKey(ExtractUserKey(e))
  {
    var k, v := ExtractUserKey(e), ExtractUserValue(e);
    RecordParses(k, v, []);
    assert Record(k, v) + [] == Record(k, v);
  }

  // ------------------------------------------------------------------
  // Writing
  // ------------------------------------------------------------------

  /** The entries laid end to end, as the entry loop of Flush writes them. */
  function Concat(content: seq<Bytes>): Bytes {
    if content == [] then [] else Concat(content[..|content| - 1]) + content[|content| - 1]
  }

  /** The bytes of the first i entries, then those of the rest. */
  lemma {:induction false} ConcatSplitAt(s: seq<Bytes>, i: nat)
    requires i <= |s|
    ensures Concat(s) == Concat(s[..i]) + Concat(s[i..])
    decreases |s|
  {
    var n := |s|;
    if i < n {
      ConcatSplitAt(s[..n - 1], i);
      assert s[..n - 1][..i] == s[..i];
      var t := s[i..];
      assert s[..n - 1][i..] == t[..|t| - 1];
      assert t[|t| - 1] == s[n - 1];
    } else {
      assert s[..i] == s;
      var none: seq<Bytes> := [];
      assert s[i..] == none;
    }
  }

  lemma {:induction false} ConcatOne(e: Bytes)
    ensures Concat([e]) == e
  {
    var none: seq<Bytes> := [];
    assert [e][..0] == none;
  }

  /** Entry i starts right after the earlier entries. */
  lemma {:induction false} ConcatAt(content: seq<Bytes>, i: nat)
    requires i < |content|
    ensures Concat(content) == Concat(content[..i]) + content[i] + Concat(content[i + 1..])
  {
    ConcatSplitAt(content, i);
    var t := content[i..];
    ConcatSplitAt(t, 1);
    assert t[..1] == [content[i]];
    assert t[1..] == content[i + 1..];
    ConcatOne(content[i]);
  }

  /** The length-prefixed key at the start of an entry. */
  function KeyPart(e: Bytes): Bytes
    requires HasKey(e)
  {
    e[..KeyEnd(e)]
  }

  /** There is a first and a last entry, and both start with a key. */
  predicate Bounded(content: seq<Bytes>) {
    |content| > 0 && HasKey(content[0]) && HasKey(content[|content| - 1])
  }

  /** The header: the key sections of the first and the last entry. */
  function Header(content: seq<Bytes>): Bytes
    requires Bounded(content)
  {
    KeyPart(content[0]) + KeyPart(content[|content| - 1])
  }

  /** index_offset = header length + 4 + data_size, in 32-bit arithmetic. */
  function IndexOffset(content: seq<Bytes>, dataSize: nat): uint32
    requires Bounded(content)
  {
    (|Header(content)| + 4 + dataSize) % TWO32
  }

  /**
   * key_offset after the entry loop: each entry's user key mapped to the
   * (32-bit) position where the entry starts; a later entry of the same key wins.
   */
  function Recorded(content: seq<Bytes>, start: nat, m: KeyOffset): KeyOffset {
    Assign(Keys(content), content, start, m)
  }

  /** ks[i] mapped to the position of content[i], the entries laid out from start. */
  function Assign(ks: seq<Bytes>, content: seq<Bytes>, start: nat, m: KeyOffset): KeyOffset
    requires |ks| == |content|
    decreases |ks|
  {
    if ks == [] then m
    else Assign(ks[1..], content[1..], start + |content[0]|, m[ks[0] := start % TWO32])
  }

  /** One item of the index section. */
  function IndexEntry(k: Bytes, offset: uint32): Bytes
    requires |k| < TWO32
  {
    WrappedKey(k) + Varint32Bytes(offset)
  }

  predicate Writable(order: seq<Bytes>, m: KeyOffset) {
    forall k :: k in order ==> k in m && |k| < TWO32
  }

  /** The index section, its items in the order the map was walked. */
  function IndexSection(order: seq<Bytes>, m: KeyOffset): Bytes
    requires Writable(order, m)
  {
    if order == [] then []
    else IndexSection(order[..|order| - 1], m) + IndexEntry(order[|order| - 1], m[order[|order| - 1]])
  }

  lemma {:induction false} Associative(a: Bytes, b: Bytes, c: Bytes)
    ensures (a + b) + c == a + (b + c)
  {
  }

  lemma {:induction false} IndexSectionFront(order: seq<Bytes>, m: KeyOffset)
    requires Writable(order, m) && order != []
    ensures IndexSection(order, m) == IndexEntry(order[0], m[order[0]]) + IndexSection(order[1..], m)
    decreases |order|
  {
    var n := |order|;
    var first, last := order[0], order[n - 1];
    if n == 1 {
      assert order[..0] == [] && order[1..] == [];
    } else {
      var init, tail := order[..n - 1], order[1..];
      assert Writable(init, m) && Writable(tail, m) by {
        assert forall k :: k in init ==> k in order;
        assert forall k :: k in tail ==> k in order;
      }
      var mid := init[1..];
      assert mid == tail[..n - 2];
      assert Writable(mid, m) by {
        assert forall k :: k in mid ==> k in order;
      }
      assert init[0] == first && tail[n - 2] == last && init != [];
      IndexSectionFront(init, m);
      var a, b, c := IndexEntry(first, m[first]), IndexSection(mid, m), IndexEntry(last, m[last]);
      assert IndexSection(init, m) == a + b;
      assert IndexSection(tail, m) == b + c;
      assert IndexSection(order, m) == (a + b) + c;
      Associative(a, b, c);
    }
  }

  /** order walks every key of m exactly once. */
  predicate Lists(order: seq<Bytes>, m: KeyOffset) {
    && (forall i, j :: 0 <= i < j < |order| ==> order[i] != order[j])
    && (forall k :: k in m ==> k in order)
    && (forall k :: k in order ==> k in m)
  }

  /** The whole file that Flush writes. */
  function Segment(content: seq<Bytes>, dataSize: nat, order: seq<Bytes>, m: KeyOffset): Bytes
    requires Bounded(content) && Writable(order, m)
  {
    Header(content) + Fixed32Bytes(IndexOffset(content, dataSize)) + Concat(content) + IndexSection(order, m)
  }

  // ------------------------------------------------------------------
  // Reading
  // ------------------------------------------------------------------

  /** The header parses, and the fixed32 after it is inside the file. */
  predicate HasHeader(file: Bytes) {
    IsRecord(file) && RecordSize(file) + 4 <= |file|
  }

  /** The index offset stored after the header. */
  function IndexStart(file: Bytes): uint32
    requires HasHeader(file)
  {
    GetFixed32(file[RecordSize(file)..])
  }

  /** One index item of LoadKeyOffset: a key and its offset, and where the next item starts. */
  datatype IndexItem = IndexItem(key: Bytes, offset: uint32, end: nat)

  /**
   * The item at the start of s: a length-prefixed key followed by a varint
   * offset; None where it does not parse inside s.
   */
  function ItemAt(s: Bytes): (r: Option<IndexItem>)
    ensures r.Some? ==> 0 < r.value.end <= |s|
  {
    if !HasKey(s) then None
    else
      match ParseVarint32(Window(s[KeyEnd(s)..], 5))
      case None => None
      case Some(o) => Some(IndexItem(ExtractUserKey(s), o.number, KeyEnd(s) + o.used))
  }

  /**
   * The loop of LoadKeyOffset over the bytes s that remain before the end of
   * the file; None where an item does not parse inside the file (the C then
   * reads past the mapping).
   */
  function ReadItems(s: Bytes, acc: KeyOffset): Option<KeyOffset>
    decreases |s|
  {
    if s == [] then Some(acc)
    else
      match ItemAt(s)
      case None => None
      case Some(it) => ReadItems(s[it.end..], acc[it.key := it.offset])
  }

  /** LoadKeyOffset from position p of the file. */
  function ReadIndex(file: Bytes, p: nat, acc: KeyOffset): Option<KeyOffset> {
    if p >= |file| then Some(acc) else ReadItems(file[p..], acc)
  }

  predicate HasIndex(file: Bytes) {
    HasHeader(file) && ReadIndex(file, IndexStart(file), map[]).Some?
  }

  /** The key-offset map LoadKeyOffset builds from a file. */
  function IndexOf(file: Bytes): KeyOffset
    requires HasIndex(file)
  {
    ReadIndex(file, IndexStart(file), map[]).value
  }

  /**
   * The records from position p up to index_offset, as compaction's
   * ExtractEntry loop reads them; None where one does not parse.
   */
  function EntriesFrom(file: Bytes, p: nat, end: nat): Option<seq<Bytes>> {
    if end <= p then Some([])
    else if |file| < p then None
    else RecordsIn(file[p..], end - p)
  }

  /** The records at the start of s, read while fewer than len of its bytes are used. */
  function RecordsIn(s: Bytes, len: int): Option<seq<Bytes>>
    decreases |s|
  {
    if len <= 0 then Some([])
    else if !IsRecord(s) then None
    else
      var n := RecordSize(s);
      match RecordsIn(s[n..], len - n)
      case None => None
      case Some(more) => Some([s[..n]] + more)
  }

  // ------------------------------------------------------------------
  // Round trips
  // ------------------------------------------------------------------

  /** Flush's input as the write buffer and compaction produce it: exact records, strictly ascending by key. */
  /** Every entry is exactly one record, as Add encodes it. */
  predicate AllExact(content: seq<Bytes>)
    decreases |content|
  {
    content == [] || (Exact(content[0]) && AllExact(content[1..]))
  }

  lemma {:induction false} AllExactAt(content: seq<Bytes>, i: nat)
    requires AllExact(content) && i < |content|
    ensures Exact(content[i])
    decreases i
  {
    if i > 0 {
      AllExactAt(content[1..], i - 1);
    }
  }

  lemma {:induction false} AllExactFrom(content: seq<Bytes>)
    requires forall i :: 0 <= i < |content| ==> Exact(content[i])
    ensures AllExact(content)
    decreases |content|
  {
    if content != [] {
      AllExactFrom(content[1..]);
    }
  }

  predicate Flushable(content: seq<Bytes>) {
    && Bounded(content)
    && AllExact(content)
    && Sorted(Keys(content))
  }

  lemma {:induction false} SortedDistinct(ks: seq<Bytes>)
    requires Sorted(ks)
    ensures forall i, j :: 0 <= i < j < |ks| ==> ks[i] != ks[j]
  {
    forall i, j | 0 <= i < j < |ks|
      ensures ks[i] != ks[j]
    {
      LessIrreflexive(ks[i]);
    }
  }

  /** The header of a flushed file is the record (first key, last key), followed by the index offset. */
  lemma {:induction false} HeaderParses(content: seq<Bytes>, rest: Bytes)
    requires Bounded(content) && Exact(content[0]) && Exact(content[|content| - 1])
    ensures var f := Header(content) + rest;
      && IsRecord(f) && RecordSize(f) == |Header(content)|
      && ExtractUserKey(f) == ExtractUserKey(content[0])
      && ExtractUserValue(f) == ExtractUserKey(content[|content| - 1])
  {
    var first, last := content[0], content[|content| - 1];
    var lo, hi := ExtractUserKey(first), ExtractUserKey(last);
    ExactKeyPart(first);
    ExactKeyPart(last);
    assert Header(content) == Record(lo, hi);
    RecordParses(lo, hi, rest);
  }

  /**
   * The key-offset map of the entry loop, for distinct keys: key i maps to
   * where entry i starts, and nothing else of m changes.
   */
  /** Flush records every listed key, and leaves the other keys of key_offset as they were. */
  lemma {:induction false} AssignKeys(ks: seq<Bytes>, content: seq<Bytes>, start: nat, m: KeyOffset)
    requires |ks| == |content|
    ensures forall k :: k in Assign(ks, content, start, m) <==> k in m || k in ks
    ensures forall k :: k in m && k !in ks ==> Assign(ks, content, start, m)[k] == m[k]
    decreases |ks|
  {
    if ks != [] {
      AssignKeys(ks[1..], content[1..], start + |content[0]|, m[ks[0] := start % TWO32]);
      assert forall k :: k in ks <==> k == ks[0] || k in ks[1..];
    }
  }

  /** Where the i-th entry starts within the entries section. */
  function Before(content: seq<Bytes>, i: nat): nat
    requires i <= |content|
  {
    |Concat(content[..i])|
  }

  lemma AssignStep(ks: seq<Bytes>, content: seq<Bytes>, start: nat, m: KeyOffset)
    requires |ks| == |content| && ks != []
    ensures Assign(ks, content, start, m)
         == Assign(ks[1..], content[1..], start + |content[0]|, m[ks[0] := start % TWO32])
  {
  }

  lemma ConcatPrefixFront(content: seq<Bytes>, i: nat)
    requires 0 < i <= |content|
    ensures Before(content, i) == |content[0]| + Before(content[1..], i - 1)
  {
    var pre := content[..i];
    ConcatSplitAt(pre, 1);
    assert pre[..1] == [content[0]] && pre[1..] == content[1..][..i - 1];
    ConcatOne(content[0]);
  }

  /** With distinct keys, the i-th key is recorded at the position of the i-th entry. */
  lemma {:induction false} AssignAt(ks: seq<Bytes>, content: seq<Bytes>, start: nat, m: KeyOffset, i: nat)
    requires |ks| == |content| && i < |ks|
    requires forall i, j :: 0 <= i < j < |ks| ==> ks[i] != ks[j]
    ensures ks[i] in Assign(ks, content, start, m)
    ensures Assign(ks, content, start, m)[ks[i]] == (start + Before(content, i)) % TWO32
    decreases i
  {
    AssignKeys(ks, content, start, m);
    AssignStep(ks, content, start, m);
    var k0, c0 := ks[0], content[0];
    var ks', tail := ks[1..], content[1..];
    var m' := m[k0 := start % TWO32];
    if i == 0 {
      AssignKeys(ks', tail, start + |c0|, m');
      assert k0 !in ks' by {
        forall j | 0 <= j < |ks'|
          ensures ks'[j] != k0
        {
          assert ks'[j] == ks[j + 1];
        }
      }
      assert content[..0] == [];
    } else {
      assert forall a, b :: 0 <= a < b < |ks'| ==> ks'[a] != ks'[b] by {
        forall a, b | 0 <= a < b < |ks'|
          ensures ks'[a] != ks'[b]
        {
          assert ks'[a] == ks[a + 1] && ks'[b] == ks[b + 1];
        }
      }
      AssignAt(ks', tail, start + |c0|, m', i - 1);
      ConcatPrefixFront(content, i);
      assert ks[i] == ks'[i - 1];
    }
  }

  /** An index item written by Flush parses back as its key and offset. */
  lemma {:induction false} ItemParses(k: Bytes, o: uint32, rest: Bytes)
    requires |k| < TWO32
    ensures ItemAt(IndexEntry(k, o) + rest) == Some(IndexItem(k, o, |IndexEntry(k, o)|))
  {
    var s := IndexEntry(k, o) + rest;
    ItemKeyParses(k, o, rest);
    ItemAtParsed(s, k, Parsed(o, |Varint32Bytes(o)|));
  }

  /** The key of an index item written by Flush parses, and so does the offset after it. */
  lemma {:induction false} ItemKeyParses(k: Bytes, o: uint32, rest: Bytes)
    requires |k| < TWO32
    ensures var s := IndexEntry(k, o) + rest;
      && HasKey(s) && ExtractUserKey(s) == k
      && KeyEnd(s) + |Varint32Bytes(o)| == |IndexEntry(k, o)|
      && ParseVarint32(Window(s[KeyEnd(s)..], 5)) == Some(Parsed(o, |Varint32Bytes(o)|))
  {
    var w, v := WrappedKey(k), Varint32Bytes(o);
    var s := IndexEntry(k, o) + rest;
    assert s == w + (v + rest);
    WrappedKeyParses(k, v + rest);
    assert s[|w|..] == v + rest;
    ParsePrefix(o, rest);
  }

  /** An item whose key and offset both parse. */
  lemma ItemAtParsed(s: Bytes, k: Bytes, p: Parsed)
    requires HasKey(s) && ExtractUserKey(s) == k && ParseVarint32(Window(s[KeyEnd(s)..], 5)) == Some(p)
    ensures ItemAt(s) == Some(IndexItem(k, p.number, KeyEnd(s) + p.used))
  {
  }

  /** One turn of the LoadKeyOffset loop over an item written by Flush. */
  lemma {:induction false} ReadItemsStep(k: Bytes, o: uint32, rest: Bytes, acc: KeyOffset)
    requires |k| < TWO32
    ensures ReadItems(IndexEntry(k, o) + rest, acc) == ReadItems(rest, acc[k := o])
  {
    var s := IndexEntry(k, o) + rest;
    ItemParses(k, o, rest);
    assert s[|IndexEntry(k, o)|..] == rest;
  }

  /** The keys of m that order lists, with their offsets. */
  function Part(m: KeyOffset, order: seq<Bytes>): KeyOffset {
    map k | k in order && k in m :: m[k]
  }

  lemma {:induction false} PartStep(acc: KeyOffset, m: KeyOffset, order: seq<Bytes>)
    requires order != [] && order[0] in m
    ensures acc[order[0] := m[order[0]]] + Part(m, order[1..]) == acc + Part(m, order)
  {
    var l, r := acc[order[0] := m[order[0]]] + Part(m, order[1..]), acc + Part(m, order);
    assert forall k :: k in order <==> k == order[0] || k in order[1..];
    assert forall k :: k in l <==> k in r;
    assert forall k :: k in l ==> l[k] == r[k];
  }

  /** The index section reads back as the listed keys with their offsets, over acc. */
  lemma {:induction false} ReadItemsSection(order: seq<Bytes>, m: KeyOffset, acc: KeyOffset)
    requires Writable(order, m)
    ensures ReadItems(IndexSection(order, m), acc) == Some(acc + Part(m, order))
    decreases |order|
  {
    if order == [] {
      assert acc + Part(m, order) == acc;
    } else {
      var k0 := order[0];
      var o0 := m[k0];
      IndexSectionFront(order, m);
      assert Writable(order[1..], m) by {
        assert forall k :: k in order[1..] ==> k in order;
      }
      ReadItemsStep(k0, o0, IndexSection(order[1..], m), acc);
      ReadItemsSection(order[1..], m, acc[k0 := o0]);
      PartStep(acc, m, order);
    }
  }

  /** Read from where it starts in a file, the index section gives the listed keys with their offsets. */
  lemma {:induction false} ReadIndexSection(prefix: Bytes, order: seq<Bytes>, m: KeyOffset, acc: KeyOffset)
    requires Writable(order, m)
    ensures ReadIndex(prefix + IndexSection(order, m), |prefix|, acc) == Some(acc + Part(m, order))
  {
    var file := prefix + IndexSection(order, m);
    assert file[|prefix|..] == IndexSection(order, m);
    ReadItemsSection(order, m, acc);
  }

  /** Concat(content), followed by rest, split after its first entry. */
  lemma {:induction false} ConcatFront(content: seq<Bytes>, rest: Bytes)
    requires content != []
    ensures Concat(content) + rest == content[0] + (Concat(content[1..]) + rest)
    ensures |Concat(content)| == |content[0]| + |Concat(content[1..])|
  {
    ConcatSplitAt(content, 1);
    assert content[..1] == [content[0]];
    ConcatOne(content[0]);
    Associative(content[0], Concat(content[1..]), rest);
  }

  /** An exact record at the front of s is the record read there, and what follows is t. */
  lemma {:induction false} ExactSplit(e: Bytes, t: Bytes, s: Bytes)
    requires Exact(e) && s == e + t
    ensures IsRecord(s) && RecordSize(s) == |e| && s[..|e|] == e && s[|e|..] == t
  {
    ExactParses(e, t);
  }

  /** One turn of the ExtractEntry loop: the record at the front of s, then those after it. */
  lemma {:induction false} RecordsCons(s: Bytes, n: nat, t: Bytes, len: int, more: seq<Bytes>)
    requires len > 0 && IsRecord(s) && RecordSize(s) == n && s[n..] == t
    requires RecordsIn(t, len - n) == Some(more)
    ensures RecordsIn(s, len) == Some([s[..n]] + more)
  {
  }

  lemma {:induction false} ConsSplit(content: seq<Bytes>)
    requires content != []
    ensures [content[0]] + content[1..] == content
  {
  }

  /** The records written by Flush read back, and the reading stops after the last of them. */
  lemma {:induction false} RecordsRoundTrip(content: seq<Bytes>, rest: Bytes)
    requires AllExact(content)
    ensures RecordsIn(Concat(content) + rest, |Concat(content)|) == Some(content)
    decreases |content|
  {
    if content != [] {
      var c0, tail := content[0], content[1..];
      var s, t := Concat(content) + rest, Concat(tail) + rest;
      RecordsRoundTrip(tail, rest);
      ConcatFront(content, rest);
      ExactSplit(c0, t, s);
      RecordsCons(s, |c0|, t, |Concat(content)|, tail);
      ConsSplit(content);
    }
  }

  lemma {:induction false} EntriesAt(f: Bytes, p: nat, end: nat, s: Bytes, len: int, r: seq<Bytes>)
    requires p <= |f| && f[p..] == s && len == end - p && RecordsIn(s, len) == Some(r)
    ensures EntriesFrom(f, p, end) == Some(r)
  {
  }

  /** Reading the entries between the header and the index gives back the content d holds. */
  lemma {:induction false} EntriesRoundTrip(prefix: Bytes, content: seq<Bytes>, d: Bytes, rest: Bytes)
    requires AllExact(content) && d == Concat(content)
    ensures EntriesFrom(prefix + d + rest, |prefix|, |prefix| + |d|) == Some(content)
  {
    var file := prefix + d + rest;
    Associative(prefix, d, rest);
    SliceAfter(file, prefix, d + rest);
    RecordsRoundTrip(content, rest);
    EntriesAt(file, |prefix|, |prefix| + |d|, d + rest, |d|, content);
  }

  /** What Flush is given and returns, for a file read back: key_offset started empty. */
  predicate Flushed(content: seq<Bytes>, order: seq<Bytes>, m: KeyOffset) {
    && Flushable(content)
    && m == Recorded(content, |Header(content)| + 4, map[])
    && Writable(order, m) && Lists(order, m)
  }

  /** The data_size the buffer passes to Flush: the total length of the entries. */
  function DataSize(content: seq<Bytes>): nat {
    |Concat(content)|
  }

  /** The file Flush writes when data_size is the length of the content. */
  function FlushedFile(content: seq<Bytes>, order: seq<Bytes>, m: KeyOffset): Bytes
    requires Flushable(content) && Writable(order, m)
  {
    Segment(content, DataSize(content), order, m)
  }

  /** A file shorter than 4 GiB: no offset Flush stores wraps around. */
  predicate Small(content: seq<Bytes>)
    requires Bounded(content)
  {
    |Header(content)| + 4 + DataSize(content) < TWO32
  }

  lemma {:induction false} Below32(n: nat)
    requires n < TWO32
    ensures n % TWO32 == n
  {
  }

  lemma {:induction false} SliceAfter(f: Bytes, pre: Bytes, post: Bytes)
    requires f == pre + post
    ensures f[|pre|..] == post
  {
  }

  /** The header of a segment holds the first and the last key, and then the index offset. */
  lemma {:induction false} SegmentHeader(content: seq<Bytes>, dataSize: nat, order: seq<Bytes>, m: KeyOffset)
    requires Flushable(content) && Writable(order, m)
    ensures var f := Segment(content, dataSize, order, m);
      && HasHeader(f) && RecordSize(f) == |Header(content)|
      && ExtractUserKey(f) == ExtractUserKey(content[0])
      && ExtractUserValue(f) == ExtractUserKey(content[|content| - 1])
      && IndexStart(f) == IndexOffset(content, dataSize)
  {
    var h, x := Header(content), Fixed32Bytes(IndexOffset(content, dataSize));
    var d, i := Concat(content), IndexSection(order, m);
    var f := Segment(content, dataSize, order, m);
    Associative(h, x, d);
    Associative(h, x + d, i);
    Associative(x, d, i);
    AllExactAt(content, 0);
    AllExactAt(content, |content| - 1);
    HeaderParses(content, x + (d + i));
    SliceAfter(f, h, x + (d + i));
    Fixed32RoundTrip(IndexOffset(content, dataSize), d + i);
  }

  /** The index offset of a file shorter than 4 GiB is where its index section starts. */
  lemma {:induction false} IndexOffsetSmall(content: seq<Bytes>)
    requires Bounded(content) && Small(content)
    ensures IndexOffset(content, DataSize(content)) == |Header(content)| + 4 + DataSize(content)
  {
    var n := |Header(content)| + 4 + DataSize(content);
    assert IndexOffset(content, DataSize(content)) == n % TWO32;
    Below32(n);
  }

  lemma {:induction false} IndexOfSegment(f: Bytes, pre: Bytes, order: seq<Bytes>, m: KeyOffset)
    requires Writable(order, m) && Lists(order, m)
    requires f == pre + IndexSection(order, m)
    requires HasHeader(f) && IndexStart(f) == |pre|
    ensures HasIndex(f) && IndexOf(f) == m
  {
    ReadIndexSection(pre, order, m, map[]);
    PartAll(m, order);
  }

  /** LoadKeyOffset on a flushed file rebuilds exactly the map Flush returned. */
  lemma {:induction false} FlushedIndex(content: seq<Bytes>, order: seq<Bytes>, m: KeyOffset)
    requires Flushable(content) && Writable(order, m) && Lists(order, m) && Small(content)
    ensures var f := FlushedFile(content, order, m);
      && HasIndex(f) && IndexOf(f) == m
      && IndexStart(f) == |Header(content)| + 4 + DataSize(content)
  {
    var h, x := Header(content), Fixed32Bytes(IndexOffset(content, DataSize(content)));
    var d := Concat(content);
    SegmentHeader(content, DataSize(content), order, m);
    IndexOffsetSmall(content);
    IndexOfSegment(Segment(content, DataSize(content), order, m), h + x + d, order, m);
  }

  /** With every key of m listed, Part keeps all of m. */
  lemma {:induction false} PartAll(m: KeyOffset, order: seq<Bytes>)
    requires Lists(order, m)
    ensures map[] + Part(m, order) == m
  {
  }

  lemma {:induction false} EntriesOfSegment(f: Bytes, pre: Bytes, content: seq<Bytes>, d: Bytes, post: Bytes)
    requires AllExact(content) && d == Concat(content) && f == pre + d + post
    requires HasHeader(f) && IndexStart(f) == |pre| + |d|
    ensures EntriesFrom(f, |pre|, IndexStart(f)) == Some(content)
  {
    EntriesRoundTrip(pre, content, d, post);
  }

  /** The entries compaction reads between header and index are the content Flush wrote. */
  lemma {:induction false} FlushedEntries(content: seq<Bytes>, order: seq<Bytes>, m: KeyOffset)
    requires Flushable(content) && Writable(order, m) && Small(content)
    ensures var f := FlushedFile(content, order, m);
      HasHeader(f) && EntriesFrom(f, |Header(content)| + 4, IndexStart(f)) == Some(content)
  {
    var pre := FlushedLayout(content, order, m);
    EntriesOfSegment(FlushedFile(content, order, m), pre, content, Concat(content), IndexSection(order, m));
  }

  /** The file Flush writes is a header, its index offset, the entries and the index, which starts right after them. */
  lemma {:induction false} FlushedLayout(content: seq<Bytes>, order: seq<Bytes>, m: KeyOffset) returns (pre: Bytes)
    requires Flushable(content) && Writable(order, m) && Small(content)
    ensures var f := FlushedFile(content, order, m);
      && |pre| == |Header(content)| + 4
      && f == pre + Concat(content) + IndexSection(order, m)
      && HasHeader(f) && IndexStart(f) == |pre| + |Concat(content)|
  {
    var h, x := Header(content), Fixed32Bytes(IndexOffset(content, DataSize(content)));
    SegmentHeader(content, DataSize(content), order, m);
    IndexOffsetSmall(content);
    pre := h + x;
  }


  lemma Regroup(p: Bytes, b: Bytes, c: Bytes, a: Bytes, q: Bytes)
    ensures p + (b + c + a) + q == (p + b) + (c + (a + q))
  {
  }

  lemma {:induction false} ConcatPrefixLength(content: seq<Bytes>, i: nat)
    requires i <= |content|
    ensures Before(content, i) <= DataSize(content)
  {
    ConcatSplitAt(content, i);
  }

  /** The i-th entry sits in the file right after the entries before it. */
  lemma {:induction false} RecordInSegment(f: Bytes, pre: Bytes, content: seq<Bytes>, d: Bytes, post: Bytes, i: nat)
    requires AllExact(content) && d == Concat(content) && f == pre + d + post && i < |content|
    requires Exact(content[i])
    ensures var o := |pre| + Before(content, i);
      && o < |f| && IsRecord(f[o..])
      && ExtractUserKey(f[o..]) == ExtractUserKey(content[i])
      && ExtractUserValue(f[o..]) == ExtractUserValue(content[i])
  {
    var b, c, a := Concat(content[..i]), content[i], Concat(content[i + 1..]);
    ConcatAt(content, i);
    Regroup(pre, b, c, a, post);
    SliceAfter(f, pre + b, c + (a + post));
    AllExactAt(content, i);
    ExactParses(c, a + post);
  }

  /** Flush records every key of the content and no other. */
  lemma {:induction false} FlushedKeys(content: seq<Bytes>, m: KeyOffset)
    requires Bounded(content) && m == Recorded(content, |Header(content)| + 4, map[])
    ensures forall k :: k in m <==> k in Keys(content)
  {
    AssignKeys(Keys(content), content, |Header(content)| + 4, map[]);
  }

  /** The offset Flush records for the i-th key is where the i-th entry starts. */
  lemma {:induction false} FlushedOffset(content: seq<Bytes>, m: KeyOffset, i: nat)
    requires Bounded(content) && Sorted(Keys(content)) && Small(content) && i < |content|
    requires m == Recorded(content, |Header(content)| + 4, map[])
    ensures Keys(content)[i] in m
    ensures m[Keys(content)[i]] == |Header(content)| + 4 + Before(content, i)
  {
    OffsetAt(Keys(content), content, |Header(content)| + 4, m, i);
  }

  lemma {:induction false} OffsetAt(ks: seq<Bytes>, content: seq<Bytes>, start: nat, m: KeyOffset, i: nat)
    requires |ks| == |content| && i < |ks| && Sorted(ks)
    requires start + DataSize(content) < TWO32 && m == Assign(ks, content, start, map[])
    ensures ks[i] in m && m[ks[i]] == start + Before(content, i)
  {
    SortedDistinct(ks);
    AssignAt(ks, content, start, map[], i);
    var n := start + Before(content, i);
    ConcatPrefixLength(content, i);
    Below32(n);
  }

  /**
   * The record at the offset Flush recorded for the i-th key is the i-th
   * entry: GetValueByOffset finds that key's value there.
   */
  lemma {:induction false} FlushedRecordAt(content: seq<Bytes>, order: seq<Bytes>, m: KeyOffset, i: nat)
    requires Flushable(content) && Writable(order, m) && Small(content) && i < |content|
    requires m == Recorded(content, |Header(content)| + 4, map[])
    ensures Keys(content)[i] in m
    ensures var f, o := FlushedFile(content, order, m), m[Keys(content)[i]];
      && 0 < o < |f| && IsRecord(f[o..])
      && ExtractUserKey(f[o..]) == Keys(content)[i]
      && ExtractUserValue(f[o..]) == UserValue(content[i])
  {
    var h, x := Header(content), Fixed32Bytes(IndexOffset(content, DataSize(content)));
    var d := Concat(content);
    FlushedOffset(content, m, i);
    AllExactAt(content, i);
    RecordInSegment(Segment(content, DataSize(content), order, m), h + x, content, d, IndexSection(order, m), i);
    AllExactAt(content, i);
  }

  /** Offsets grow with the keys: a later entry is recorded at a larger offset. */
  lemma {:induction false} FlushedOffsetsIncrease(content: seq<Bytes>, m: KeyOffset, i: nat, j: nat)
    requires Flushable(content) && Small(content) && i < j < |content|
    requires m == Recorded(content, |Header(content)| + 4, map[])
    ensures Keys(content)[i] in m && Keys(content)[j] in m
    ensures m[Keys(content)[i]] < m[Keys(content)[j]]
  {
    FlushedOffset(content, m, i);
    FlushedOffset(content, m, j);
    var pre := content[..j];
    ConcatAt(pre, i);
    assert pre[..i] == content[..i] && pre[i] == content[i];
    AllExactAt(content, i);
    assert 2 <= RecordSize(content[i]) <= |content[i]|;
  }
}
