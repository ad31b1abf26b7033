# kv-storage in Dafny

A model of the core of kv-storage, a small log-structured merge (LSM) key-value store. The model covers these parts:

- **Writes.** Records are appended to an in-memory storage buffer. It is a skip list over an arena of memory blocks.
- **Flushes.** A full buffer is swapped out and written as a sorted segment file at level 0. A file is named `<level>_<id as %08d>`, which the C cuts to eight characters (see Findings). It holds a header, a data section of records and an index section of key offsets.
- **Compaction.** The storage engine keeps the files of every level sorted. It compacts a level that holds more than its threshold into the next level. It either moves a single file down (a trivial move) or merges the overlapping files with an N-way merge. The merge keeps the newest record of every key and drops tombstones.
- **Reads.** `DataBase::Get` looks a key up in the current buffer, then the buffer being flushed, then the engine's files level by level, newest first. Parsed files go through an LRU cache.

Every record is `varint32(|key|) key varint32(|value|) value`, with the LEB128 varints and little-endian fixed-width integers of `util/coding.cpp`.

The model consists of these files:

| File | Models |
|---|---|
| `wrappers.dfy` | The Option and Result types |
| `coding.dfy` | Varints and fixed-width integers |
| `utils.dfy` | Records, the byte order, file names |
| `comparator.dfy` | The record comparator |
| `random.dfy` | The Park–Miller generator |
| `memory.dfy` | The arena |
| `skip_list_spec.dfy` and `skip_list.dfy` | The skip list: its specification, and its linked implementation over a pool of node handles |
| `cache.dfy` | The LRU cache |
| `storage_buffer.dfy` | The double storage buffer and the segment writer |
| `file.dfy` and `segment.dfy` | Reading segment files back, and the layout round trips |
| `merge.dfy` | The N-way merge |
| `storage_engine.dfy` | The engine's functional core: sorting, scans, overlap search, the file-table updates |
| `storage_engine_class.dfy` | The `StorageEngine` class |
| `data_base.dfy` | `DataBase::Add` and `DataBase::Get` |

The file system is modelled as a map from file paths to byte sequences. The engine holds it as a field and passes it into the file-reading code. Integer widths are written out where the C truncates: `uint32` and `uint64` sums are taken modulo 2^32 and 2^64.

## Model

| member | source | states |
|---|---|---|
| Coding.Varint32Bytes | util/coding.cpp:15-51 | The five byte layouts EncodeVarint32 chooses between are exactly the LEB128 encoding of v |
| Coding.Leb128Length | util/coding.cpp:209-219 | An encoding has at most k bytes if and only if v < 128^k: a uint32 takes at most 5 bytes, a uint64 at most 10 |
| Coding.Leb128Shape | util/coding.cpp:53-65 | Every byte but the last has the continuation bit set, the last has it clear, and the first carries the low seven bits of v |
| Coding.GroupsFinal | util/coding.cpp:165-185 | A successful decode stops on a byte whose continuation bit is clear |
| Coding.GroupsNone | util/coding.cpp:165-185 | The decode fails if and only if every byte within the window has its continuation bit set |
| Coding.GroupsPrefix | util/coding.cpp:165-185 | The decoder reads nothing past the final byte: whatever follows it does not change the result |
| Coding.Leb128Decodes | util/coding.cpp:187-207 | LEB128(v) followed by any bytes decodes back to v and its length, whenever the encoding fits the byte budget |
| Coding.ParseVarint32 | util/coding.cpp:165-185 | A 32-bit decode uses 1 to 5 bytes within the input and yields a number below 2^32. It fails if and only if none of the first five bytes is final |
| Coding.ParseVarint64 | util/coding.cpp:187-207 | A 64-bit decode uses 1 to 10 bytes and yields a number below 2^64. It fails if and only if none of the first ten bytes is final |
| Coding.Varint32RoundTrip | util/coding.cpp:165-185 | Decoding EncodeVarint32's bytes, followed by anything, gives back v and the encoded length |
| Coding.Varint64RoundTrip | util/coding.cpp:187-207 | Decoding EncodeVarint64's bytes, followed by anything, gives back v and the encoded length |
| Coding.Varint32DropsHighBits | util/coding.cpp:165-185 | An over-long fifth byte is accepted and its bits past bit 31 are dropped. Five continuation bytes are rejected |
| Coding.Varint64TestValue | unit-tests/coding_test.cpp:24 | The 64-bit value of the unit test encodes in 8 bytes and decodes back to itself |
| Coding.DecodeLoop32Correct | util/coding.cpp:168-184 | From any state consistent with the bytes read so far, the 32-bit decode loop computes ParseVarint32, including the 32-bit truncation of every shift |
| Coding.DecodeLoop64Correct | util/coding.cpp:190-206 | The 64-bit decode loop computes ParseVarint64, including the 64-bit truncation of every shift |
| Coding.GetVarint32Ptr | util/coding.cpp:165-185 | It returns NULL if and only if no varint ends within [p, limit). Otherwise it returns p advanced by the bytes used and the decoded value |
| Coding.GetVarint64Ptr | util/coding.cpp:187-207 | The same for 64-bit values and at most ten bytes |
| Coding.GetVarint32 | util/coding.cpp:135-148 | It returns -1 if and only if no varint ends within the first `size` bytes. Otherwise it returns the length and the value |
| Coding.GetVarint64 | util/coding.cpp:150-163 | The same for 64-bit values |
| Coding.VarintLength | util/coding.cpp:209-219 | The count the loop computes is the length of the LEB128 encoding |
| Coding.EncodeVarint32 | util/coding.cpp:15-51 | It writes LEB128(v) at pos, returns the end position and leaves every other byte unchanged |
| Coding.EncodeVarint64 | util/coding.cpp:53-65 | It writes LEB128(v) at pos, returns the end position and leaves every other byte unchanged |
| Coding.LittleEndianRoundTrip | util/coding.cpp:82-99 | Reading the n little-endian bytes of v < 256^n gives back v |
| Coding.FromLittleEndianRoundTrip | util/coding.cpp:116-133 | Re-encoding the number read from any bytes gives back the same bytes |
| Coding.GetFixed32 | util/coding.cpp:101-114 | The value read is the one whose fixed-32 encoding is the first four bytes |
| Coding.GetFixed64 | util/coding.cpp:116-133 | The value read is the one whose fixed-64 encoding is the first eight bytes |
| Coding.Fixed32RoundTrip | util/coding.cpp:101-114 | GetFixed32 reads back what EncodeFixed32 wrote, whatever follows it |
| Coding.Fixed64RoundTrip | util/coding.cpp:116-133 | GetFixed64 reads back what EncodeFixed64 wrote, whatever follows it |
| Coding.EncodeFixed32 | util/coding.cpp:67-80 | It writes the four little-endian bytes of the value at pos and leaves the rest of the buffer unchanged |
| Coding.EncodeFixed64 | util/coding.cpp:82-99 | It writes the eight little-endian bytes of the value at pos and leaves the rest of the buffer unchanged |
| Utils.LessTrichotomy | util/utils.h:73-79 | The byte-string order is total and strict: exactly one of a < b, a == b and b < a holds |
| Utils.LessTransitive | util/utils.h:73-79 | The byte-string order is transitive |
| Utils.Compare | util/utils.h:73-79 | Compare returns -1, 0 or 1 exactly when akey sorts before, equals or sorts after bkey |
| Utils.CompareAntisymmetric | util/utils.h:73-79 | Swapping the arguments negates the result |
| Utils.ExtractUserKey | util/utils.h:15-22 | The extracted key is shorter than 2^32 bytes. RecordParses states which key it is |
| Utils.RecordParses | util/utils.h:15-61 | On a record followed by anything, ExtractUserKey gives the key, ExtractUserValue gives the value, and EntrySize gives the record's length (modulo 2^32) |
| Utils.ExtractUserValue | util/utils.h:43-61 | The value is shorter than 2^32 bytes and lies, after the key section and its own length prefix, inside the record |
| Utils.EntrySize | util/utils.h:33-41 | The 32-bit size never exceeds the record's length, and equals it whenever the length fits in 32 bits |
| Utils.WrappedKeyParses | util/utils.h:15-22 | ExtractUserKey of a wrapped key, followed by anything, gives back the key, and the key section ends where the wrapped key ends |
| Utils.RecordHasWrappedKey | util/utils.h:63-71 | A record is the wrapped key followed by the wrapped value |
| Utils.WrapUserKey | util/utils.h:63-71 | It returns a new buffer holding varint32(\|key\|) followed by the key |
| Utils.Digits | util/utils.h:84 | The decimal digits of n: at least one, all digits, and a single one exactly when n < 10 |
| Utils.Padded8 | util/utils.h:84 | printf's "%08d" yields at least eight characters |
| Utils.FileNameAsWritten | util/utils.h:81-91 | The name as written is the level, '_' and exactly eight characters of the padded id, whatever the id |
| Utils.FileName | util/utils.h:81-91 | The intended name is the level, '_' and at least eight characters of id; for every id below 10^8 it is the name as written |
| Utils.FileNameAgrees | util/utils.h:81-91 | The name as written equals the intended name if and only if the padded id has exactly eight characters |
| Utils.FileNameCollision | util/utils.h:81-91 | Ids n ≥ 10^7 and 10n+d get the same name as written, while their intended names differ |
| KeyComparator.CompareEntries | util/comparator.h:17-25 | Two records compare as their user keys do: -1, 0 or 1 for before, equal or after |
| KeyComparator.SameKeyEqual | util/comparator.h:17-25 | Two records with the same key compare equal, whatever their values |
| KeyComparator.RecordAgainstWrappedKey | util/comparator.h:17-25 | A record compared with a wrapped lookup key gives the comparison of the two user keys |
| KeyComparator.Antisymmetric | util/comparator.h:17-25 | Swapping the arguments negates the comparison |
| KeyComparator.Transitive | util/comparator.h:17-25 | The comparator is a total preorder: transitive for both <= and < |
| RandomGen.InitialSeed | structure/random.h:23-29 | The constructor's seed is never 0 or 2^31-1. It is the low 31 bits of s, or 1 when those are 0 or 2^31-1 |
| RandomGen.NoZeroDivisor | structure/random.h:31-46 | Multiplying a seed in range by 16807 never gives a multiple of 2^31-1 |
| RandomGen.NextSeedInRange | structure/random.h:31-46 | A step keeps the seed in range, so the generator never reaches a fixed point |
| RandomGen.FoldedStep | structure/random.h:36-43 | The division-free step (high 31 bits plus low 31 bits, one conditional subtraction) fits in 32 bits and equals seed * 16807 mod (2^31-1) |
| RandomGen.OutputsInRange | structure/random.h:31-46 | Every value the generator returns is in range |
| RandomGen.Random.constructor | structure/random.h:23-29 | The seed is InitialSeed(s) |
| RandomGen.Random.Next | structure/random.h:31-46 | The new seed is seed * 16807 mod (2^31-1), stays in range and is the value returned |
| Arena.Slop | structure/memory.cpp:57-58 | The padding is below 8 and brings the pointer to an 8-byte boundary |
| Arena.Memory.constructor | structure/memory.cpp:76-82 | A new arena owns no blocks and counts no memory. It has no current pointer and nothing left to hand out |
| Arena.Memory.AllocateNewBlock | structure/memory.cpp:45-51 | It appends one new block of the requested size, adds its size to the count and returns its start. Everything else is unchanged |
| Arena.Memory.AllocateFallback | structure/memory.cpp:30-43 | A request over a quarter block gets a block of its own and the current block is kept. A smaller one starts a new 4096-byte current block past the request. The new region is disjoint from every earlier one |
| Arena.Memory.Allocate | structure/memory.cpp:16-28 | A request that fits is cut from the current pointer, which advances by the size. Otherwise the fallback's outcome follows. Either way the arena stays valid, so handed-out regions never overlap |
| Arena.Memory.AllocateAligned | structure/memory.cpp:53-74 | The result is always 8-byte aligned. The padded request is cut from the current block when it fits. Otherwise it comes from the start of a new block. A request over a quarter block gets a block of its own size, and the current pointer, the bytes remaining and the memory count grow as in the fallback. A smaller request starts a new 4096-byte current block, and the pointer then sits just past the result |
| Arena.RegionsDisjoint | structure/memory.cpp:16-43 | Any two regions a valid arena has handed out are disjoint |
| SkipListSpec.LowerBoundTail | structure/skip_list.h:221-251 | In sorted keys, exactly the keys below the lower bound sort before k. This is the place FindGreaterOrEqual finds |
| SkipListSpec.KeyAtLowerBound | structure/skip_list.h:221-251 | A key that is present sits at its lower bound |
| SkipListSpec.ContainsAtLowerBound | structure/skip_list.h:337-349 | Sorted keys contain k if and only if k is at its lower bound |
| SkipListSpec.SortedSplice | structure/skip_list.h:307-335 | An absent key spliced in at its lower bound keeps the keys strictly sorted |
| SkipListSpec.InsertSortedProperties | structure/skip_list.h:307-335 | After an insert: the records stay sorted with distinct keys; the key set gains exactly k's key; k is that key's record; every record of another key is kept; the length grows by one exactly when the key was absent |
| SkipListSpec.InsertPresent | structure/skip_list.h:312-316 | Overwriting the record of a present key keeps the key sequence, and that key occurs only there |
| SkipListSpec.InsertAbsent | structure/skip_list.h:318-334 | Splicing an absent key in at its lower bound keeps the keys sorted, adds exactly that key and keeps every other record |
| SkipListSpec.InsertContains | structure/skip_list.h:307-335 | After Insert(k) the list contains k's key |
| SkipListSpec.FirstUnique | structure/skip_list.h:176-186 | The first position at or after q that is taller than l is determined by its three defining properties. This is where a level-l link leads |
| SkipListSpec.NodeKey | structure/skip_list.h:169-190 | In a valid pool the node at position i is a record whose user key is the i-th key |
| SkipListSpec.NextAt | structure/skip_list.h:176-180 | A node's link at level l leads to the next position that reaches level l, or to null when there is none |
| SkipListSpec.LevelZeroChain | structure/skip_list.h:131-135 | The level-0 links visit every node in key order. The head links to the first node and the last links to null |
| SkipListSpec.RaiseHeight | structure/skip_list.h:319-327 | Raising the list's height keeps the invariant, because the head links to nothing above the old height |
| SkipListSpec.SearchKey | structure/skip_list.h:221-251 | One search step at level l from a node before key's lower bound either advances to a node still before it, or stops at the last node before it at level l |
| SkipListSpec.CompareAt | structure/skip_list.h:216-219 | The comparator says a node sorts before key exactly when it lies below key's lower bound, and equal exactly when the user keys are equal |
| SkipListSpec.FoundAt | structure/skip_list.h:310-316 | The node at the lower bound holds key's user key if and only if the list contains it |
| SkipListSpec.OverwriteKeepsInv | structure/skip_list.h:312-316 | Replacing a node's record by one with the same user key keeps the invariant and yields InsertSorted |
| SkipListSpec.InsertKeepsInv | structure/skip_list.h:329-334 | Splicing a new tower in at the lower bound, taking over each prev[l]'s link, keeps every invariant and yields InsertSorted |
| SkipListSpec.LinkAfterInsert | structure/skip_list.h:330-334 | After the splice, every link of every node leads where the new tower geometry says |
| SkipLists.Tower | structure/skip_list.h:201-213 | The height reached never decreases and never exceeds MaxHeight |
| SkipLists.TowerDraws | structure/skip_list.h:201-213 | The height is one plus the number of leading draws divisible by 4. The draw that stopped it is not divisible by 4, unless MaxHeight stopped it |
| SkipLists.KeyIsAfterNode | structure/skip_list.h:215-219 | True if and only if n is a node whose user key sorts before key's |
| SkipLists.PointToHead | structure/skip_list.h:321-324 | prev[l] becomes the head for every l from the old height up to the new one. Every other entry is kept |
| SkipLists.LinkTower | structure/skip_list.h:330-334 | At each level below h, the new node takes over prev[l]'s link and prev[l] links to the new node. No other link changes |
| SkipLists.FindGreaterOrEqual | structure/skip_list.h:221-251 | It returns the first node whose key is not before key's, or null. prev[l] is the last node before that place that reaches level l |
| SkipLists.FindLessThan | structure/skip_list.h:253-278 | It returns the last node whose key is before key's, or the head |
| SkipLists.FindLast | structure/skip_list.h:280-304 | It returns the last node in key order, or the head when the list is empty |
| SkipLists.SkipList.constructor | structure/skip_list.h:102-112 | An empty list of height 1, its head taken from the arena, its generator seeded with 0xdeadbeef |
| SkipLists.SkipList.Equal | structure/skip_list.h:40 | True if and only if the two records have the same user key |
| SkipLists.SkipList.RandomHeight | structure/skip_list.h:200-213 | The height and the generator's new seed are those of Tower: between 1 and 12, growing while draws are divisible by 4 |
| SkipLists.SkipList.NewNode | structure/skip_list.h:192-198 | The node's memory is an aligned arena region of the size of a key pointer and `height` links |
| SkipLists.SkipList.Insert | structure/skip_list.h:306-335 | The content becomes InsertSorted: a present key's record is overwritten in place, and an absent key gains a node and raises the height to the drawn tower's. The invariant is kept |
| SkipLists.SkipList.Add | structure/skip_list.h:318-334 | For an absent key: one more node, the content InsertSorted, the height the maximum of the old height and the drawn tower |
| SkipLists.SkipList.Replace | structure/skip_list.h:312-316 | For a present key: only that node's record changes, and the content is InsertSorted |
| SkipLists.SkipList.Contains | structure/skip_list.h:337-349 | True if and only if some record has key's user key |
| SkipLists.Iterator.constructor | structure/skip_list.h:114-118 | A new iterator is not valid |
| SkipLists.Iterator.Key | structure/skip_list.h:125-129 | The record at the iterator's position in the content |
| SkipLists.Iterator.Next | structure/skip_list.h:131-135 | It moves to the next position in key order, or to null after the last |
| SkipLists.Iterator.Prev | structure/skip_list.h:137-146 | It moves to the previous position, or to null before the first |
| SkipLists.Iterator.Seek | structure/skip_list.h:148-154 | It is valid if and only if the list contains target's key, and then it is on that key's node |
| SkipLists.Iterator.SeekToFirst | structure/skip_list.h:156-159 | It moves to the first position, or to null when the list is empty |
| SkipLists.Iterator.SeekToLast | structure/skip_list.h:161-167 | It moves to the last position, or to null when the list is empty |
| Caches.Without | structure/cache.cpp:99-103 | The id is absent from the result, and every other element of s is kept |
| Caches.WithoutAt | structure/cache.cpp:99-103 | In a sequence without repeats, taking out the value at k leaves the other elements in order |
| Caches.ToFrontKeepsIds | structure/cache.cpp:99-112 | Moving an element to the front keeps the same elements, without repeats |
| Caches.MoveToFrontAt | structure/cache.cpp:50-57 | Using a cached id moves its position to the front of the recency order |
| Caches.DetachNode | structure/cache.cpp:99-103 | The neighbours of the node are linked to each other, and the chain is intact without the node |
| Caches.IndexedTouch | structure/cache.cpp:55-56 | Moving an id and its node to the front keeps the map, the list and the ids in step |
| Caches.IndexedEvict | structure/cache.cpp:90-97 | Dropping the least recently used id together with the node before tail keeps them in step |
| Caches.IndexedAdmit | structure/cache.cpp:69-77 | A new id with a new node at the front keeps them in step |
| Caches.Node.constructor | structure/cache.h:21 | A new node has key 0, an empty table and no links |
| Caches.LRUCache.constructor | structure/cache.cpp:7-17 | An empty cache of the given capacity: head linked to tail, no ids and no tables |
| Caches.LRUCache.Clear | structure/cache.cpp:29-41 | Every table is dropped, the list is empty again and the capacity is kept |
| Caches.LRUCache.InsertToFront | structure/cache.cpp:106-112 | The node goes right after head. Only links change |
| Caches.LRUCache.Get | structure/cache.cpp:43-62 | ifExists says whether the segment's table is cached. Only when the key is in it does the offset become its entry and the segment the most recently used. Otherwise the offset is 0 and the order is unchanged. No table changes |
| Caches.LRUCache.Set | structure/cache.cpp:64-88 | The table of the segment becomes the given one, and the segment the most recently used. A new segment in a full cache first evicts the least recently used segment. A new segment in a cache that is not full is added |
| Caches.LRUCache.SetNew | structure/cache.cpp:67-78 | A new segment: evict when the cache is full, then add it at the front |
| Caches.LRUCache.SetCached | structure/cache.cpp:79-85 | A cached segment: it gets the new table and moves to the front |
| Caches.LRUCache.Admit | structure/cache.cpp:73-77 | The node carries the id and table, joins the map and goes to the front. The count grows by one |
| Caches.LRUCache.RemoveLRUNode | structure/cache.cpp:90-97 | The least recently used segment leaves the list, the map and the tables. The count drops by one |
| Caches.LRUCache.Revalue | structure/cache.cpp:83 | The cached segment's table is replaced. The order is kept |
| Caches.LRUCache.Promote | structure/cache.cpp:55-56 | The segment at position i moves to the front. The tables are unchanged |
| Caches.LRUCache.Relink | structure/cache.cpp:55-56 | Detaching node k and inserting it after head gives the chain with node k moved to the front |
| Caches.FilledCache | unit-tests/cache_test.cpp:12-24 | Setting segments 0 to 4 in a cache of capacity 5 caches them all, with segment 0 the least recently used |
| Caches.ZeroRead | unit-tests/cache_test.cpp:18-21 | Reading segment 0 makes it the most recently used, so segment 1 becomes the least recently used |
| Caches.SixthSet | unit-tests/cache_test.cpp:23 | Setting segment 5 into the full cache evicts segment 1 |
| Caches.EvictionScenario | unit-tests/cache_test.cpp:10-30 | The unit test's outcome: segment 0 still gives offset 1, and segment 1, which was evicted, gives 0 |
| StorageBuffers.RecordFits | db/storage_buffer.cpp:13-31 | The record Add builds is one exact record whose user key and user value are the key and value given |
| StorageBuffers.FitsWhole | db/storage_buffer.cpp:148-149 | EntrySize of a stored record is its whole length, so FlushBuffer copies it whole |
| StorageBuffers.StoredInsert | db/storage_buffer.cpp:33 | Inserting an encoded record keeps every record of a list one that Add encoded |
| StorageBuffers.LookupAt | db/storage_buffer.cpp:184-194 | A record with key k anywhere in a sorted buffer is the one a lookup finds |
| StorageBuffers.LookupFinds | db/storage_buffer.cpp:184-194 | A lookup finds a value if and only if the buffer holds the key |
| StorageBuffers.Lookup | db/storage_buffer.cpp:184-194 | A value found is the value of a record in the buffer that has the key looked up |
| StorageBuffers.LookupInsert | db/storage_buffer.cpp:13-33 | After Add(k, v), a lookup of k gives v, and a lookup of every other key gives what it gave before |
| StorageBuffers.WriteHeader | db/storage_buffer.cpp:77-96 | It writes the key sections of the first and the last entry, then index_offset as a fixed32. The offset is the length written, modulo 2^32 |
| StorageBuffers.WriteBounds | db/storage_buffer.cpp:77-91 | It writes the key sections of the lower and the upper entry, and counts their length |
| StorageBuffers.ReadKeySection | db/storage_buffer.cpp:81-84 | The varint length plus the key size is where the key section ends, and those bytes are the entry's key section |
| StorageBuffers.WriteEntries | db/storage_buffer.cpp:98-115 | It appends every entry in order, and maps each entry's user key to the 32-bit offset where the entry starts |
| StorageBuffers.WriteVarint32 | db/storage_buffer.cpp:119-122 | The bytes from the buffer's start to the returned pointer are the varint. It fits the six-byte buffer |
| StorageBuffers.RecordedKeys | db/storage_buffer.cpp:99-103 | Every key Flush records is a user key, shorter than 2^32 bytes, or was in key_offset before |
| StorageBuffers.WriteIndex | db/storage_buffer.cpp:117-130 | It writes every key of key_offset once, in the map's own iteration order, each with its offset |
| StorageBuffers.Fill | db/storage_buffer.cpp:25-31 | The bytes written at buf[o..] are exactly the record of key and value |
| StorageBuffers.EncodeRecord | db/storage_buffer.cpp:15-31 | It fails exactly when the 32-bit encoded_len wraps, and then the arena is untouched. Otherwise encoded_len bytes taken from the arena hold the record of key and value. The arena stays valid either way |
| StorageBuffers.SeekValue | db/storage_buffer.cpp:186-193 | It finds a value if and only if the list holds the key, and then gives that record's value |
| StorageBuffers.AddSize | db/storage_buffer.cpp:151 | flush_size grows by the entry size, wrapping at 2^32 |
| StorageBuffers.Take | db/storage_buffer.cpp:146-149 | It returns the i-th record and moves the iterator to the next position |
| StorageBuffers.Collect | db/storage_buffer.cpp:144-152 | It returns every record of the flush list in key order, and their total size modulo 2^32 |
| StorageBuffers.CollectOne | db/storage_buffer.cpp:146-152 | One turn of the loop takes the next record whole and adds its size |
| StorageBuffers.InsertRecord | db/storage_buffer.cpp:15-33 | It succeeds exactly when encoded_len does not wrap. Then the list becomes InsertSorted of its records with the new record, and the returned length is the record's. Otherwise the list is unchanged |
| StorageBuffers.FlushedSegment | db/storage_buffer.cpp:135-157 | A non-empty, sorted flush list can be flushed. Under 4 GiB, what Flush writes is the segment file of its records |
| StorageBuffers.NewBuffer | db/storage_buffer.cpp:55-59 | A new arena and an empty skip list over it |
| StorageBuffers.StorageBuffer.constructor | db/storage_buffer.h:35-39 | An empty income list in a new arena, no flush buffer, and both flags false |
| StorageBuffers.StorageBuffer.SetFlushThreadIdle | db/storage_buffer.h:81-84 | Only the thread-ready flag changes, to true |
| StorageBuffers.StorageBuffer.SetFlushThreadBusy | db/storage_buffer.h:86-89 | Only the thread-ready flag changes, to false |
| StorageBuffers.StorageBuffer.FlushBufferReady | db/storage_buffer.h:91-94 | It returns the flag |
| StorageBuffers.StorageBuffer.BufferSize | db/storage_buffer.h:76-79 | It returns the threshold |
| StorageBuffers.StorageBuffer.SwapBuffer | db/storage_buffer.cpp:51-62 | The income list becomes the flush buffer with the same records. A new empty income list takes its place, the income size resets and the ready flag is set |
| StorageBuffers.StorageBuffer.ClearFlushBuffer | db/storage_buffer.cpp:159-170 | The flush buffer is gone and the ready flag is clear. The income side is untouched |
| StorageBuffers.StorageBuffer.Add | db/storage_buffer.cpp:13-49 | It fails, changing nothing, exactly when the record's 32-bit encoded_len wraps. Otherwise the income records become InsertSorted with the new record, and the income size grows by its length modulo 2^32. When the size then passes buffer_size and the flush thread is idle, those records become the flush buffer, the flush thread is marked busy and the income side is empty again |
| StorageBuffers.StorageBuffer.SwapIfFull | db/storage_buffer.cpp:36-48 | It swaps exactly when income_size > buffer_size and the flush thread is idle. Otherwise nothing changes |
| StorageBuffers.StorageBuffer.Insert | db/storage_buffer.cpp:15-34 | It succeeds exactly when encoded_len does not wrap. Then the record goes into the income list and income_size grows by its length modulo 2^32; otherwise both are unchanged. The flush side is untouched |
| StorageBuffers.StorageBuffer.Get | db/storage_buffer.cpp:172-211 | Status 0 with the income list's value when it holds the key, else with the flush list's value. Otherwise status -1 and value_out untouched |
| StorageBuffers.StorageBuffer.FlushBuffer | db/storage_buffer.cpp:135-157 | What it writes is the segment of the flush list's records in key order, with data_size their total length modulo 2^32. key_offset gains every user key's offset |
| StorageBuffers.StorageBuffer.Flush | db/storage_buffer.cpp:64-133 | The stream is the header, the index offset, the entries and the index items. The offsets are the entries' start positions |
| Files.Overwritten | db/file.h:105-108 | Writing one path twice leaves the second contents |
| Files.FilePath | db/file.h:55-61 | The path is the folder, a slash and the name |
| Files.FilePathInjective | db/file.h:55-61 | Two names in one folder have the same path if and only if they are the same name |
| Files.Spaces | db/file.h:71-72 | The leading whitespace std::stoi skips: all whitespace, and followed by a character that is not whitespace |
| Files.DigitRun | db/file.h:71-72 | The digits std::stoi reads: all digits, and followed by a character that is not a digit |
| Files.Stoi | db/file.h:71-72 | A number std::stoi returns fits a 32-bit int. It returns None where the digit run is empty or out of range |
| Files.ValueDigits | util/utils.h:86 | The digits of n denote n |
| Files.StoiDigits | db/file.h:71-72 | std::stoi of an optional minus sign, digits, and a character that is not a digit reads the signed number |
| Files.StoiIntToString | util/utils.h:86 | std::stoi reads back std::to_string of any int, whatever follows that is not a digit |
| Files.StoiPadded | util/utils.h:84 | std::stoi reads back the zero-padded "%08d" of any int |
| Files.FindUnderscore | db/file.h:65 | It returns the position of the first '_', or None when there is none |
| Files.NameRoundTrip | db/file.h:63-72 | The name FileName gives a segment parses back to its level id and file id |
| Files.ParseName | db/file.h:63-72 | A name without '_' is parsed twice whole, so where it parses, its level id and file id are equal |
| Files.Mapped | db/file.h:32-42 | The mapping holds the first file_size_ bytes, file_size_ being the size modulo 2^32, which is the whole file under 4 GiB |
| Files.ReadBounds | db/file.h:85-95 | It succeeds if and only if the header is two length-prefixed strings within the mapping. They are then the lower and the upper bound |
| Files.LengthPrefixed | db/file.h:88-90 | GetVarint32's length and size locate a length-prefixed string exactly when it fits, and then it is the extracted key |
| Files.OpenFile | db/file.h:63-98 | It succeeds if and only if the two ids parse, the file exists and its header parses. It then yields the ids, the mapping and its size, and the two bounds of the header |
| Segments.RecordExact | db/storage_buffer.cpp:25-29 | A record that Add encodes is exact: it reads back as its key and value, with nothing after them |
| Segments.ExactParses | db/storage_engine.cpp:137-147 | An exact record followed by anything reads back as its key and value, and its size is its length |
| Segments.ExactKeyPart | db/storage_buffer.cpp:81-90 | The key section of an exact record is its wrapped user key |
| Segments.ConcatSplitAt | db/storage_buffer.cpp:99-115 | The bytes of the entries are those of the first i entries followed by those of the rest |
| Segments.HeaderParses | db/storage_buffer.cpp:77-91 | A header reads as the record (first key, last key), so the engine reads the bounds and skips it like any record |
| Segments.SortedDistinct | db/storage_buffer.cpp:105-111 | The keys Flush writes are strictly ascending, so no key repeats |
| Segments.AssignKeys | db/storage_buffer.cpp:99-103 | Flush records every listed key and keeps the other keys of key_offset as they were |
| Segments.AssignAt | db/storage_buffer.cpp:103 | For distinct keys, key i maps to the 32-bit position where entry i starts |
| Segments.ItemAt | db/storage_engine.cpp:124-134 | A parsed index item ends past its start and within the bytes |
| Segments.ItemParses | db/storage_engine.cpp:126-133 | An index item Flush writes reads back as its key and offset, and ends where the item ends |
| Segments.ReadItemsStep | db/storage_engine.cpp:124-134 | Reading one item adds key to offset and continues with the rest |
| Segments.ReadItemsSection | db/storage_engine.cpp:124-134 | Reading an index section that was written in any map order rebuilds exactly the pairs it holds |
| Segments.ReadIndexSection | db/storage_engine.cpp:123-134 | The index loop, started at the section's offset, reads the whole section and stops at the end of the file |
| Segments.RecordsRoundTrip | db/storage_engine.cpp:291-378 | The entries Flush writes read back record by record, and the reading stops after the last of them |
| Segments.EntriesRoundTrip | db/storage_engine.cpp:291-378 | Reading the data section between the header and the index gives back the content written there |
| Segments.SegmentHeader | db/storage_buffer.cpp:77-96 | A segment starts with the record (first key, last key), followed by the fixed32 index offset |
| Segments.IndexOffsetSmall | db/storage_buffer.cpp:93 | Under 4 GiB, index_offset is the header length plus 4 plus data_size, without wrap-around |
| Segments.FlushedIndex | db/storage_engine.cpp:110-135 | LoadKeyOffset on a flushed file rebuilds exactly the key_offset map that Flush returned |
| Segments.FlushedLayout | db/storage_buffer.cpp:77-118 | A file Flush writes is the header and the 4-byte index offset, then the entries, then the index section, and the stored index offset points right past the entries |
| Segments.FlushedEntries | db/storage_engine.cpp:291-378 | The entries compaction reads between the header and the index are exactly the content that Flush wrote |
| Segments.RecordInSegment | db/storage_engine.cpp:137-147 | The i-th entry sits right after the entries before it, and reads back as its key and value |
| Segments.FlushedKeys | db/storage_buffer.cpp:99-103 | Flush into an empty map records every key of the content and no other |
| Segments.FlushedOffset | db/storage_buffer.cpp:99-114 | Under 4 GiB, key i is recorded at the header length plus 4 plus the length of the entries before it |
| Segments.FlushedRecordAt | db/storage_engine.cpp:137-147 | At the offset Flush records for a key, GetValueByOffset finds that key's record and value |
| Segments.FlushedOffsetsIncrease | db/storage_buffer.cpp:99-114 | A later entry is recorded at a larger offset |
| Merge.QueueCmp | db/storage_engine.h:74-80 | b leaves the queue before a only when a's key is not the smaller one; between equal keys, b leaves first exactly when a's level is larger, or the levels are equal and a's file id is smaller |
| Merge.QueueCmpIrreflexive | db/storage_engine.h:74-80 | No entry outranks itself in the compaction queue |
| Merge.QueueCmpTransitive | db/storage_engine.h:74-80 | The queue comparator is transitive |
| Merge.QueueCmpIncomparable | db/storage_engine.h:74-80 | Two entries are incomparable exactly when key, level and file id agree, and never outrank each other both ways; with the two lemmas above the comparator is a strict weak order, as std::priority_queue needs |
| Merge.QueueCmpNegTransitive | db/storage_engine.h:74-80 | "Does not outrank" is transitive |
| Merge.AheadSameKey | db/storage_engine.h:78 | For one key, an entry leaves the queue first exactly when its level is smaller, or its level is the same and its file id is larger |
| Merge.AheadKeys | db/storage_engine.h:78 | The queue never pops a larger key before a smaller one |
| Merge.TopIndex | db/storage_engine.cpp:332 | top() is an element of the queue that no element outranks |
| Merge.TopOrder | db/storage_engine.cpp:332 | The top has the smallest key; among entries of that key the smallest level; among those the largest file id |
| Merge.BestIn | db/storage_engine.cpp:330-367 | The best head among the first n inputs is a nonempty input that no other head outranks; None only when all those inputs are used up |
| Merge.BestAfter | db/storage_engine.cpp:330-367 | A new head that the best head so far does not beat is itself unbeaten once its input is counted |
| Merge.GreedyLength | db/storage_engine.cpp:330-367 | The merge pops exactly as many entries as the inputs hold |
| Merge.GreedyFirst | db/storage_engine.cpp:330-367 | The merge's first entry is a head that no other input's head leaves the queue before |
| Merge.GreedyCons | db/storage_engine.cpp:330-367 | The merge takes the best head first and goes on with what is left, which is strictly smaller |
| Merge.GreedyBag | db/storage_engine.cpp:330-367 | The merge pops every entry of every input exactly once: its output is a permutation of the inputs |
| Merge.GreedyAscending | db/storage_engine.cpp:330-367 | With ascending inputs from distinct files, every popped entry leaves the queue before every later one |
| Merge.HeadFirst | db/storage_engine.cpp:330-367 | Every entry left once the best head is taken comes after that head |
| Merge.Survivors | db/storage_engine.cpp:334-348 | The entries copied into content are the popped ones that lead their key and are not tombstones, in pop order |
| Merge.SurvivorSource | db/storage_engine.cpp:334-348 | A survivor is a popped entry that leads its key and is not a tombstone |
| Merge.SurvivorKept | db/storage_engine.cpp:334-348 | Every popped entry that leads its key and is not a tombstone survives |
| Merge.SurvivorsAscending | db/storage_engine.cpp:334-348 | The kept keys are strictly ascending, so every output file is sorted and has no repeated key |
| Merge.MergeKeeps | db/storage_engine.cpp:291-378 | Compaction keeps an input record exactly when it is not a tombstone and no record of its key comes from a lower level or a newer file of its level; kept keys are strictly ascending |
| Merge.KeptIsNewest | db/storage_engine.cpp:334-341 | An entry that leads its key in pop order is the newest record of that key |
| Merge.NewestLeads | db/storage_engine.cpp:334-341 | The newest record of a key leads that key in pop order |
| Merge.FillingPrefixes | db/storage_engine.cpp:349-350 | A batch is still filling exactly when no nonempty prefix takes the 32-bit content_size past the buffer size |
| Merge.SurvivorsSnoc | db/storage_engine.cpp:334-348 | The next popped entry survives exactly when its key differs from prev and it is not a tombstone |
| Merge.RecordPrefix | db/storage_engine.cpp:345 | The bytes ByteArray(p_, size_) cut out of the mapping are the whole record, with its key and value |
| Merge.Entries | db/storage_engine.cpp:394-425 | Each record of an input becomes the entry ExtractEntry builds for it |
| Merge.StreamsTagged | db/storage_engine.cpp:424 | Every entry of input i carries the input's file id and the index i |
| Merge.RecordFields | db/storage_engine.cpp:396-410 | The two GetVarint32 calls find the key and value fields of a record, and total_len is the record's size |
| Merge.ExtractEntry | db/storage_engine.cpp:394-425 | The entry holds the record at p, its key and whether its value is the tombstone; the cursor moves to the next record |
| Merge.EmitSkip | db/storage_engine.cpp:334 | A popped entry whose key equals prev adds nothing to the output |
| Merge.EmitTomb | db/storage_engine.cpp:341-343 | A tombstone that leads its key becomes prev and is dropped |
| Merge.EmitPush | db/storage_engine.cpp:345-349 | A live entry that leads its key is appended to content while content_size stays within the buffer size |
| Merge.EmitCut | db/storage_engine.cpp:350-358 | A live entry that takes content_size past the buffer size closes the batch, which is flushed, and content starts empty |
| Merge.Emit | db/storage_engine.cpp:334-361 | One popped entry keeps the batches and the open content equal to the survivors' records, cut where the size went past the buffer size |
| Merge.FinalBatch | db/storage_engine.cpp:369-375 | The last batch is what remains, when nonempty; the batches then hold exactly the survivors' records |
| Merge.UpcomingStep | db/storage_engine.cpp:363-366 | Before the index offset, the next entry of an input is the record at its cursor, and reading goes on after it |
| Merge.UpcomingDone | db/storage_engine.cpp:363 | Once the cursor reaches the index offset, the input has nothing left |
| Merge.StreamStart | db/storage_engine.cpp:298-314 | An input's entries are what reading from after its header and its index offset gives |
| Merge.TopIsBest | db/storage_engine.cpp:332 | The top of the queue is the head the merge takes next |
| Merge.Removed | db/storage_engine.cpp:333 | pop() removes the top and keeps the other queued entries |
| Merge.PopHeads | db/storage_engine.cpp:332-366 | After a pop and a refill, the queue holds heads of the inputs that remain |
| Merge.PopCovers | db/storage_engine.cpp:332-366 | After a pop and a refill, every input that is not used up has its head queued |
| Merge.PopOnce | db/storage_engine.cpp:332-366 | After a pop and a refill, no input has two entries queued |
| Merge.DrainedQueue | db/storage_engine.cpp:330 | Once the queue is empty, the merge has nothing left |
| Merge.Headers | db/storage_engine.cpp:298-307 | Every readable input starts with its header record |
| Merge.SkipHeaders | db/storage_engine.cpp:298-307 | The first loop leaves each input's cursor right after its header record |
| Merge.ReadOffsets | db/storage_engine.cpp:309-314 | The second loop reads each input's index offset and moves its cursor past the 4 bytes |
| Merge.PushOne | db/storage_engine.cpp:322-325 | One turn of the third loop pushes input i's first entry, when it has one before its index |
| Merge.PushFirst | db/storage_engine.cpp:320-326 | After the third loop, the queue holds exactly the first entry of every input that has one, and each cursor is past it |
| Merge.PopRefill | db/storage_engine.cpp:332-366 | Popping and refilling keeps the cursors and the queue in step with what remains of the inputs |
| Merge.MergeStep | db/storage_engine.cpp:330-367 | One turn of the main loop keeps the cursors, the queue and the output in step with the merge, and strictly shrinks what remains |
| Merge.MergeFiles | db/storage_engine.cpp:291-378 | The batches that NWayCompaction hands to FlushCompactedFile are exactly the survivors' records, in pop order. Each batch is cut where content_size went past the buffer size and is passed with its own 32-bit size |
| Engine.StrictWeakOrder | db/storage_engine.h:82-85 | cmp (by lower bound) and GetContainsFiles' order (by file id, descending) are strict weak orders, as std::sort demands; for cmp the tied files are exactly those with equal lower bounds |
| Engine.Slot | db/storage_engine.cpp:73-77 | The insertion loop stops past every file that goes before the new one, at the first file that does not |
| Engine.Place | db/storage_engine.cpp:73-79 | The insertion loop puts the file at its slot |
| Engine.InsertedSorted | db/storage_engine.cpp:73-79 | Inserting at the slot keeps a level sorted by lower bound and adds exactly the new file |
| Engine.Sort | db/storage_engine.cpp:43-47 | std::sort gives a permutation of the level, sorted by the order |
| Engine.SortedUnique | db/storage_engine.cpp:105 | Two lists of the same files, each sorted strictly by descending id, are the same list: GetContainsFiles' order is fully determined |
| Engine.FirstWithId | db/storage_engine.cpp:242-250 | The erase loop finds the first file of the level with the compacted file's id, or runs to the end |
| Engine.EraseFile | db/storage_engine.cpp:242-250 | The erase loop takes out the first file of the id and nothing else |
| Engine.ErasedKeeps | db/storage_engine.cpp:242-250 | Erasing keeps the level sorted and every file of another id, adds none, and with distinct ids leaves no file of the id |
| Engine.RemovedAt | db/storage_engine.cpp:247 | vector::erase keeps the files before the position and moves the later ones down by one |
| Engine.CoveringMember | db/storage_engine.cpp:95-103 | A file is among the covering ones exactly when it is in the level and its range holds the key |
| Engine.Scanned | db/storage_engine.cpp:93-103 | GetContainsFiles' loop keeps no more files than the level has, and only files of the level whose range holds the key |
| Engine.ScannedCovering | db/storage_engine.cpp:95-103 | On a level sorted by lower bound, stopping at the first file that starts past the key loses nothing: the scan keeps exactly the files whose range holds the key |
| Engine.ScanLevel | db/storage_engine.cpp:93-103 | The scan of one level keeps each visited file that ends at or after the key, walking while the key is at or past the lower bound |
| Engine.ContainsFilesIn | db/storage_engine.cpp:93-106 | A level's list is a permutation of the scanned files, sorted newest first |
| Engine.ContainsFiles | db/storage_engine.cpp:89-108 | One list per level, in ascending level order; each holds the scanned files of its level, newest first; on sorted levels these are exactly the files whose range holds the key |
| Engine.ReachLargest | db/storage_engine.cpp:445-448 | The upper bound after the fan-in is the largest of the starting bound and the taken files' upper bounds |
| Engine.ChainedAt | db/storage_engine.cpp:440-454 | Each file the fan-in takes starts no later than the upper bound reached by the files before it |
| Engine.FindOverlapFilesLevel0 | db/storage_engine.cpp:438-455 | From the second file of level 0, the fan-in takes each file that starts within the bound reached so far, widening the bound, and stops at the first file that starts past it |
| Engine.Overlapping | db/storage_engine.cpp:429-435 | A file is among the overlapping ones exactly when it is in the level and its range meets [lowerbound, upperbound] |
| Engine.FindOverlapFilesBasedOnBound | db/storage_engine.cpp:427-436 | Every file of the next level whose range meets the bounds is appended, in level order |
| Engine.InstalledWellFormed | db/storage_engine.cpp:259-271 | Installing a file keeps every level sorted and labelled and maps its id to it |
| Engine.InsertedLabelled | db/storage_engine.cpp:261-267 | Inserting a file into a list of its level's files gives a list of that level's files |
| Engine.InstalledHas | db/storage_engine.cpp:259-271 | Installing adds the file to its level and keeps every file of every level |
| Engine.RemovedWellFormed | db/storage_engine.cpp:240-255 | Removing a file keeps the tables well formed |
| Engine.RemovedStays | db/storage_engine.cpp:240-255 | Removing keeps every file of another id and brings in none |
| Engine.RemovedGone | db/storage_engine.cpp:240-255 | With distinct ids per level, removing leaves no file of that id in its level |
| Engine.ErasedDistinct | db/storage_engine.cpp:247 | Erasing keeps the other ids of a level distinct |
| Engine.RemoveAllWellFormed | db/storage_engine.cpp:240-255 | The removal loop keeps the tables well formed |
| Engine.RemoveAllFiles | db/storage_engine.cpp:253 | The removal loop takes exactly the compacted ids out of files_map_ |
| Engine.RemoveAllStays | db/storage_engine.cpp:240-255 | The removal loop keeps every file whose id is not removed and brings in none |
| Engine.RemoveAllGone | db/storage_engine.cpp:240-255 | With distinct ids per level, no compacted file is left in its level |
| Engine.InstallAllWellFormed | db/storage_engine.cpp:259-271 | The installation loop keeps the tables well formed |
| Engine.InstallAllHas | db/storage_engine.cpp:259-271 | The installation loop puts each new file in its level and keeps every file that was there |
| Engine.InstallAllKeys | db/storage_engine.cpp:269 | After installation, files_map_ holds exactly the old ids and the new ones |
| Engine.InstallAllOthers | db/storage_engine.cpp:269 | The installation loop leaves the entries of other ids alone |
| Engine.InstallAllMaps | db/storage_engine.cpp:269 | With distinct new ids, each new id maps to its own file |
| Engine.RemoveFiles | db/storage_engine.cpp:240-255 | The removal loop of UpdateMapAfterCompaction removes each compacted file in turn |
| Engine.InstallFiles | db/storage_engine.cpp:259-271 | The installation loop installs each new file in turn |
| Engine.DeleteFiles | db/storage_engine.cpp:278-286 | With need_remove_file, the old files' paths are removed from the folder and nothing else is |
| Engine.Renamed | db/storage_engine.cpp:226 | rename moves the contents to the new path and leaves the old path empty; nothing happens when there is no file at the old path |
| Engine.ListingLabelled | db/storage_engine.cpp:25-41 | The directory scan puts each file in its own level and maps each id to a file with that id; file_id_ is at least every id read |
| Engine.ScanFolder | db/storage_engine.cpp:25-41 | The constructor's loop appends each non-hidden file to its level, maps its id, and keeps the largest id |
| Engine.SortLevels | db/storage_engine.cpp:43-47 | Each level becomes a permutation of itself sorted by lower bound, and the set of levels is unchanged |
| Engine.ReadIndexStep | db/storage_engine.cpp:124-134 | One index item moves p past it, still inside the file, and records the key's offset |
| Engine.ReadIndexOffset | db/storage_engine.cpp:112-121 | Skipping both bounds and reading the fixed32 after them succeeds exactly when the header parses, and gives the index offset |
| Engine.ReadItem | db/storage_engine.cpp:126-132 | One turn of the index loop reads the item at p |
| Engine.ItemParts | db/storage_engine.cpp:126-132 | The item is the length-prefixed key followed by the varint offset |
| Engine.ReadIndexItems | db/storage_engine.cpp:123-134 | The index loop reads items while p is before the end of the file |
| Engine.LoadIndex | db/storage_engine.cpp:110-135 | LoadKeyOffset adds the index items of the file to key_offset; None where the file does not parse |
| Engine.ReadValue | db/storage_engine.cpp:137-147 | GetValueByOffset gives the value of the record at the offset |
| Engine.FlushedLookup | db/storage_engine.cpp:110-147 | On a file Flush wrote, LoadKeyOffset from an empty map rebuilds the key-offset map Flush returned, and GetValueByOffset at each key's offset gives that key's value |
| Engine.TouchedKeeps | db/storage_engine.cpp:81 | Reading level_files_[0].size() inserts an empty level 0 when it is missing; the tables stay well formed and every level keeps its files |
| Engine.CompactionInputs | db/storage_engine.cpp:163-176 | Compact takes the first file of the level; on level 0 also the run the fan-in takes; then every next-level file that meets the bounds reached |
| Engine.BatchFlushable | db/storage_engine.cpp:350-375 | Every batch the merge hands to FlushCompactedFile is not empty and each of its records has a key, so Flush is defined on it |
| Engine.FlushedOf | db/storage_engine.cpp:380-392 | What Flush writes for a batch from an empty key_offset is the segment of that batch |
| Engine.OpenedFrom | db/storage_engine.cpp:228 | A file opened from the folder is the File of the bytes at its path |
| Engine.WrittenSnoc | db/storage_engine.cpp:52-64 | Each flush writes the new stream to the path named for the next file id, one level down |
| Engine.OutputSnoc | db/storage_engine.cpp:350-375 | Flushing and opening one more batch keeps every earlier output file and adds the new one |
| Engine.OutputKept | db/storage_engine.cpp:350-375 | An earlier output stays an output when a file is appended |
| Engine.OutputLast | db/storage_engine.cpp:350-375 | The appended file is the output of the next batch |
| Engine.MoveOpens | db/storage_engine.cpp:215-229 | A trivially moved file keeps its bytes and bounds, and reopens one level down under its new id |
| Engine.AddNamed | db/storage_engine.cpp:66-87 | AddFile opens the named file, puts it at its slot in its level and maps its id; the tables stay well formed |
| Engine.OrderStep | db/storage_engine.cpp:91 | Taking the least remaining level keeps the levels visited in ascending order |
| Engine.CollectedStep | db/storage_engine.cpp:91-107 | Collecting the least remaining level's scan keeps what GetContainsFiles has gathered in level order |
| StorageEngines.StorageEngine.constructor | db/storage_engine.cpp:7-50 | The engine holds every non-hidden file of the data folder in its level, each level a permutation of the files read sorted by lower bound, files_map_ keyed by id, and file_id_ the largest id read |
| StorageEngines.StorageEngine.NewWritableFile | db/storage_engine.cpp:52-64 | Takes the next file id and creates the empty file named for it on the level; the tables are unchanged |
| StorageEngines.StorageEngine.AddFile | db/storage_engine.cpp:66-87 | Inserts the opened file at its slot in its level and maps its id. Compaction is notified when level 0 holds more files than the limit. Nothing changes when the file does not open |
| StorageEngines.StorageEngine.GetContainsFiles | db/storage_engine.cpp:89-108 | For each level in ascending order, the files whose range holds the key, newest first |
| StorageEngines.StorageEngine.LoadKeyOffset | db/storage_engine.cpp:110-135 | Adds the index items of the file with that id to key_offset |
| StorageEngines.StorageEngine.GetValueByOffset | db/storage_engine.cpp:137-147 | The value of the record at the offset of the file with that id |
| StorageEngines.StorageEngine.UpdateMapAfterCompaction | db/storage_engine.cpp:235-289 | Erases the compacted files from their levels and the map, installs the new ones at their slots, and deletes the old files only when need_remove_file is set; the tables stay well formed |
| StorageEngines.StorageEngine.TrivialMove | db/storage_engine.cpp:212-233 | Takes a new id, renames the file to the next level's name for it, reopens it there and replaces the old file in the tables; nothing is deleted |
| StorageEngines.StorageEngine.Compact | db/storage_engine.cpp:149-210 | A level within its threshold is left unchanged; otherwise the tables stay well formed and file ids only grow |
| Engine.Threshold | db/storage_engine.cpp:155 | The threshold is 0 for a negative level; for any other level it is negative exactly when the limit is, and at least the limit when the limit is not negative |
| Engine.WithinLimit | db/storage_engine.cpp:155 | An empty level, and any level under a negative limit, is within its threshold |
| StorageEngines.StorageEngine.NWayCompaction | db/storage_engine.cpp:291-378 | The new files of the next level hold exactly the newest live record of every key of the inputs, in ascending key order, cut where content_size went past the buffer size; each is written under the next file id |
| StorageEngines.StorageEngine.FlushBatches | db/storage_engine.cpp:350-375 | Each batch is flushed, in order, to a new file of the next level under the next id, and opened |
| StorageEngines.StorageEngine.FlushAndOpen | db/storage_engine.cpp:353-355 | One batch is flushed to the next level under the next id, and the file opened from what was written |
| StorageEngines.StorageEngine.FlushCompactedFile | db/storage_engine.cpp:380-392 | A new file on the level holds the segment Flush writes for the batch from an empty key_offset |
| DataBases.FirstProbeAt | db/data_base.cpp:105-128 | The inner loop stops at the first candidate whose probe is not a miss, after misses on every earlier one; when all probes miss, the level gives a miss |
| DataBases.MissesShift | db/data_base.cpp:105-128 | Misses on the first candidate and on the first i of the rest are misses on the first i + 1 |
| DataBases.CoherentSet | db/data_base.cpp:111-118 | Caching the loaded index of a mapped file keeps every cached table equal to its file's index, even when Set evicts another table |
| DataBases.LookedUp | structure/cache.cpp:43-62 | LRUCache::Get leaves the tables alone; a hit on a key of a cached table makes that id the most recent |
| DataBases.Admitted | structure/cache.cpp:67-78 | LRUCache::Set of an uncached id makes it the most recent entry with its table. Every other entry kept has its old table; when the cache is full, the least recently used entry goes |
| DataBases.ProbeCaches | db/data_base.cpp:107-119 | After a probe of a mapped file whose index loads, that index is cached under the file's id. The id is the most recent entry unless it was cached already and the key is not in its table |
| DataBases.CoherentProbe | db/data_base.cpp:107-119 | Every probe keeps each cached table equal to its file's index |
| DataBases.CoherentLevel | db/data_base.cpp:105-128 | The probes of a level's candidates keep each cached table equal to its file's index |
| DataBases.HitCached | db/data_base.cpp:105-127 | When a level gives a hit, the file that gave it is the most recent cache entry afterwards, holding that file's index |
| DataBases.HitCachedAll | db/data_base.cpp:103-127 | When Get's file search gives a hit, the file that gave it, some level's candidate, is the most recent cache entry afterwards, holding its index |
| DataBases.AddResolution | db/storage_buffer.cpp:13-49 | After the buffer's Add of (k, v), the buffers answer k with v. Any other key gets what it got before; when the income list was swapped, it gets what the old income list gave |
| DataBases.DataBase.constructor | db/data_base.h:30 | A new database holds the given buffer, engine and empty cache, which are valid and agree on the tomb value, and it is not stopped |
| DataBases.ByteArrayOf | db/data_base.cpp:83 | The ByteArray holds the first |s| modulo 2^32 bytes of the string, and the whole string when it is shorter than 2^32 bytes |
| DataBases.DataBase.Add | db/data_base.cpp:74-84 | A delete becomes a put of the tomb value. Key and value are cut to their 32-bit ByteArray sizes. It fails exactly when the record of the cut key and value reaches 2^32 bytes, and then the buffers are unchanged. Otherwise the buffers answer the cut key with the cut value. Every other key is answered as before; a swap that drops the old flush list is the exception |
| DataBases.DataBase.Get | db/data_base.cpp:86-133 | A stopped database answers -1. Otherwise the buffers' answer wins with status 0, and the cache is untouched. Else the candidate files of each level, newest first, are probed through the cache. The first probe that is not a miss decides: a hit gives 0 and its value, anything else -1 with value_out untouched. The cache afterwards is exactly what those probes make of it (`AfterLists`): a cached table hit on the key moves to the front, and an uncached file's index is admitted, evicting the least recently used table when the cache is full |
| DataBases.DataBase.AskBuffers | db/data_base.cpp:94-97 | The buffers answer with status 0 and the value they hold for the key, or -1 and value_out untouched; nothing changes, the cache included |
| DataBases.DataBase.SearchKept | db/data_base.cpp:99-132 | The file search leaves the buffers and the stop flag alone. It gives the first non-miss probe over the GetContainsFiles lists and leaves the cache as those probes make it |
| DataBases.DataBase.SearchEngine | db/data_base.cpp:99-132 | The candidates are exactly GetContainsFiles' lists. The answer is the first probe over them that is not a miss, and the cache ends as the probes up to it make it |
| DataBases.DataBase.SearchLists | db/data_base.cpp:103-129 | The outer loop gives the first level whose candidates give something other than a miss; the cache ends as the probes of the levels up to it make it |
| DataBases.DataBase.SearchLevel | db/data_base.cpp:105-128 | The inner loop gives the first probe of the level's candidates that is not a miss; the cache ends as the probes up to it make it |
| DataBases.DataBase.ProbeFile | db/data_base.cpp:107-127 | The probe equals the one computed from the file itself, so caching never changes an answer. The cache ends as `AfterProbe` says: a hit on a cached table moves it to the front, and an uncached index is loaded and admitted |
| DataBases.DataBase.LookUp | db/data_base.cpp:108-119 | The key's offset comes from the cached table, or else from the freshly loaded index, and equals the offset in the file's own index (0 when absent, none when the index does not parse). The cache ends as `AfterProbe` says |
| DataBases.DataBase.ReadOffset | db/data_base.cpp:121-127 | Offset 0 is a miss; another offset gives the value read there, or a broken probe when it does not parse |
| DataBases.DataBase.LoadAndCache | db/data_base.cpp:109-119 | On a cache miss, the key's offset in the loaded index is returned (0 when the key is absent). The index is admitted to the cache as its most recent entry, evicting the least recently used one when the cache is full. An index that does not parse leaves the cache as it was |
| DataBases.DataBase.CacheTable | db/data_base.cpp:118 | Set of an uncached file: its index becomes the most recent entry, the least recently used one is evicted when the cache is full, the capacity is unchanged, and the cache stays coherent with the file map |

## Left out

- Threads, locks and events are left out because their point is concurrency. The model does not cover the flush and compaction daemons, `Start`, `ShutDown` and `ClearCache` of `db/data_base.cpp`, the read-write lock, the mutexes, or the notifications of `event_flush_buffer_` and `event_compact_`. Every operation runs as if it held its locks. `flush_thread_ready_` is an input flag. `AddFile`'s notification is a boolean field, `compactNotified`.
- Logging is left out, and so are `mkdir` of the data folder and the error path of `opendir`. They produce no state the model reads.
- `fopen`, `fwrite`, `mmap`, `stat`, `rename` and `remove` act on a map from paths to byte sequences. A failed `fopen` is not modelled; a write always succeeds.
- `Constant::TombValue` and `Constant::DataFolder` are only declared in `type/constant.h`. Their definitions are not part of this model, so the model takes their values as parameters.
- Big-endian hosts are left out. `util/endian` is not part of this model, and the big-endian branches of `GetFixed32`/`GetFixed64` sign-extend `char`. The model fixes the host to little-endian.
- Bytes that are not a record are undefined behaviour in C. The model's decoders require a well-formed key (`HasKey`) or record (`IsRecord`); the callers that read a segment carry the `None`/`Broken` paths instead. Where the C would read past a mapping, `StorageEngines.StorageEngine.NWayCompaction` and `DataBases.DataBase.ProbeFile` stop with `ok` false or a `Broken` probe, and `Get` answers -1.
- `std::unordered_map` iteration order is unspecified, so the order in which `Flush` writes the index section is a nondeterministic choice. Every property holds for every order.
- `level_files_` and `files_map_` are modelled together as one tables value with two fields, `levels` and `files`.
- Engine.Threshold: does not model the overflow of the `int` product `level0_files_number_limit_ * (int)pow(10, level_id)` or of `(int)pow(10, level_id)` for level 10 and above. The threshold is the exact product. `pow` is computed as the integer power of ten.
- StorageEngines.StorageEngine.Compact: its recursion, which compacts the same level and the next one again, terminates only because each round moves files down; `fuel` bounds its depth, and the contract states what every call keeps (well-formed tables, growing file ids) and that a level within its threshold is left unchanged, not the final shape of the levels. When a trivial move or a merge cannot open a file, the model stops compacting where the C would dereference a broken `File`.
- StorageEngines.StorageEngine.TrivialMove: takes the single file `Compact` hands it, where the C loops over a vector that `Compact` only ever fills with one file.
- StorageEngines.StorageEngine.NewWritableFile: names the new file with the intended `Utils.FileName`, not with the C's truncating `FileName` (`Utils.FileNameAsWritten`). The two agree exactly when the padded id has eight characters (`Utils.FileNameAgrees`), which holds for every id below 10^8. For a larger id, the C's name drops the id's tail; for example, 123456789 at level 0 becomes `0_12345678`. `fopen(.., "w")` then empties any file of that name, and the file opened from that name (`AddFile`) carries the truncated id 12345678. The model names such files in full.
- StorageEngines.StorageEngine.TrivialMove: renames the moved file with `Utils.FileName`, so, as for NewWritableFile, it differs from the C only for ids of 10^8 and above.
- StorageEngines.StorageEngine.FlushBatches: its new files are named by NewWritableFile's `Utils.FileName`, with the same gap for ids of 10^8 and above.
- StorageEngines.StorageEngine.FlushAndOpen: opens the file under `Utils.FileName`, with the same gap for ids of 10^8 and above.
- StorageEngines.StorageEngine.FlushCompactedFile: writes to the path `Utils.FileName` gives, with the same gap for ids of 10^8 and above.
- Engine.Written: the paths of the flushed streams are built with `Utils.FileName`, with the same gap for ids of 10^8 and above.
- Engine.WrittenSnoc: states the disk update under `Utils.FileName` paths, with the same gap for ids of 10^8 and above.
- Engine.Output: an output file is opened under its `Utils.FileName` name, with the same gap for ids of 10^8 and above.
- Engine.MoveOpens: the moved file reopens under its `Utils.FileName` name, with the same gap for ids of 10^8 and above.
- StorageEngines.StorageEngine.NWayCompaction: merges only files with pairwise distinct file ids and otherwise returns `ok` false, so `Compact` stops. The C does not check this: if two inputs share an id, for example `0_7` and `1_7` in a folder that `ScanFolder` accepts, its priority queue breaks the tie between their equal entries in an unspecified order. The engine only ever hands out fresh ids, so this can arise only from the files found at startup, and the model does not state an order for it.
- Caches.LRUCache.constructor: requires a capacity other than 0. With capacity 0, the first `Set` evicts from an empty list through the head's null `prev`.
- StorageBuffers.StorageBuffer.Flush: requires a nonempty content whose first and last entries have keys; on an empty content the C calls `front()` on an empty vector. The buffer and the merge never flush an empty batch (`Engine.BatchFlushable`).
- StorageBuffers.StorageBuffer.Add: ignores the order type, as the C does; a delete arrives as a put of the tomb value.
- StorageBuffers.StorageBuffer.Add: requires a key and a value below 4 GiB, because they are `ByteArray`s, whose size is a `uint32_t` (`type/byte_array.h`). The truncation happens where `DataBase::Add` builds them (`DataBases.ByteArrayOf`). When the record itself reaches 2^32 bytes, the C's `encoded_len` wraps, `Allocate` returns a block of that length modulo 2^32, and the two `memcpy` calls write past it. That is undefined behaviour; the model reports it as `ok` false and changes nothing.
- StorageBuffers.StorageBuffer.Insert: the same size bounds and the same error case as Add.
- StorageBuffers.InsertRecord: the same size bounds and the same error case as Add; on the error it leaves the list unchanged.
- StorageBuffers.EncodeRecord: the same size bounds as Add. Where the C allocates the wrapped length and overruns it, the model returns `None` and does not allocate.
- DataBases.DataBase.Add: accepts a key and a value of any length and cuts them to their 32-bit `ByteArray` sizes as the C does. A record of the cut key and value of 2^32 bytes or more gives `ok` false and leaves the buffers unchanged, where the C overruns its allocation. The tomb value is cut the same way.
- DataBases.DataBase.Get and StorageBuffers.StorageBuffer.Get: require a key below 4 GiB. For a longer key, the C's `Get` encodes the 32-bit cut of its size but copies the whole key into a buffer sized by an `int` sum, which is undefined behaviour.
- The DEBUG check in `Flush` is left out: the model assumes builds define `NDEBUG`. That check starts `prev` at `"00000"`, logs "wrong order!" and asserts when a key sorts below the one before it. It would abort a debug build whose first flushed key sorts below `"00000"`, for example `""`, `"!"` or `"0"`.
- `SkipList::Insert` overwrites a present key's node, as the code does, although its header comment asks callers never to insert a key that is present.
- Files.OpenFile: a failed `stat` leaves `file_size_` at its 32-bit wrap of -1, so the mapping fails; the model reads this as a file that does not open. The C's `file_size_ < 0` check can never hold for an unsigned size and is not modelled as a separate branch.
- The skip list allocates each node's memory from its arena (`SkipLists.SkipList.NewNode`), but the node's record and links are kept in a pool indexed by node handles; what the C stores into that arena region is not tracked.
- DataBases.DataBase.Get: returns a tombstone's value verbatim on a hit, as the C does; turning it into "not found" is the client's business and is not part of the core.

## Findings

| source | as written | input that shows it | evidently intended | confidence | as-written member | corrected member |
|---|---|---|---|---|---|---|
| util/utils.h:81-91 | The id is printed with `%08d` into a nine-byte buffer whose ninth byte is then set to 0, so an id of nine or more digits keeps only its first eight (and `sprintf` writes past the buffer) | File ids 123456789 and 12345678 at level 0 both get the name `0_12345678`, so the later file overwrites the earlier one | The name holds the whole zero-padded id, so distinct ids give distinct names | not executed | Utils.FileNameCollision | Utils.FileNameAgrees |
