/**
 * util/utils.h: the record layout shared by the skip list, the storage buffer
 * and the segment files, the byte-string order, and the segment file names.
 *
 * A record is `varint32(|key|) key varint32(|value|) value`; a wrapped key is
 * its first half, `varint32(|key|) key`, which is what lookups search with.
 */
module Utils {
  import opened Wrappers
  import opened Coding

  // ------------------------------------------------------------------
  // The order of std::string: lexicographic on unsigned bytes
  // ------------------------------------------------------------------

  /** a sorts strictly before b: a proper prefix of b, or smaller at the first difference. */
  predicate Less(a: Bytes, b: Bytes)
    decreases |a|
  {
    if |a| == 0 then |b| > 0
    else |b| > 0 && (a[0] < b[0] || (a[0] == b[0] && Less(a[1..], b[1..])))
  }

  lemma {:induction false} LessIrreflexive(a: Bytes)
    ensures !Less(a, a)
    decreases |a|
  {
    if |a| > 0 {
      LessIrreflexive(a[1..]);
    }
  }

  /** Exactly one of a < b, a == b, b < a. */
  lemma {:induction false} LessTrichotomy(a: Bytes, b: Bytes)
    ensures Less(a, b) || a == b || Less(b, a)
    ensures !(Less(a, b) && Less(b, a))
    ensures Less(a, b) ==> a != b
    decreases |a|
  {
    if |a| > 0 && |b| > 0 {
      LessTrichotomy(a[1..], b[1..]);
      if a[0] == b[0] && a[1..] == b[1..] {
        assert a == [a[0]] + a[1..] && b == [b[0]] + b[1..];
      }
    }
    if Less(a, b) {
      LessIrreflexive(a);
    }
  }

  lemma {:induction false} LessTransitive(a: Bytes, b: Bytes, c: Bytes)
    requires Less(a, b) && Less(b, c)
    ensures Less(a, c)
    decreases |a|
  {
    if |a| > 0 && a[0] == b[0] && b[0] == c[0] {
      LessTransitive(a[1..], b[1..], c[1..]);
    }
  }

  /** Transitivity stated as an implication, usable where either premise may fail. */
  lemma LessChain(a: Bytes, b: Bytes, c: Bytes)
    ensures Less(a, b) && Less(b, c) ==> Less(a, c)
  {
    if Less(a, b) && Less(b, c) {
      LessTransitive(a, b, c);
    }
  }

  /** Compare: -1, 0 or 1 as akey sorts before, equal to or after bkey. */
  function Compare(akey: Bytes, bkey: Bytes): (r: int)
    ensures r == -1 <==> Less(akey, bkey)
    ensures r == 0 <==> akey == bkey
    ensures r == 1 <==> Less(bkey, akey)
  {
    LessTrichotomy(akey, bkey);
    if Less(akey, bkey) then -1 else if akey == bkey then 0 else 1
  }

  lemma CompareAntisymmetric(a: Bytes, b: Bytes)
    ensures Compare(a, b) == -Compare(b, a)
  {
  }

  // ------------------------------------------------------------------
  // Records and wrapped keys
  // ------------------------------------------------------------------

  /** The bytes the storage buffer stores for key k and value v. */
  function Record(k: Bytes, v: Bytes): Bytes
    requires |k| < TWO32 && |v| < TWO32
  {
    Varint32Bytes(|k|) + k + Varint32Bytes(|v|) + v
  }

  /** The search key built from a user key: the first half of a record. */
  function WrappedKey(k: Bytes): Bytes
    requires |k| < TWO32
  {
    Varint32Bytes(|k|) + k
  }

  /**
   * e starts with a length prefix (a varint within its first five bytes) and
   * holds that many bytes after it. On other bytes the C reads uninitialised
   * or out-of-bounds memory, so the extractors below require this.
   */
  predicate HasKey(e: Bytes) {
    var h := ParseVarint32(Window(e, 5));
    h.Some? && h.value.used + h.value.number <= |e|
  }

  /** Where the length-prefixed key of e ends. */
  function KeyEnd(e: Bytes): (n: nat)
    requires HasKey(e)
    ensures 1 <= n <= |e|
  {
    var h := ParseVarint32(Window(e, 5)).value;
    h.used + h.number
  }

  /** ExtractUserKey: the key after the length prefix. */
  function ExtractUserKey(e: Bytes): (k: Bytes)
    requires HasKey(e)
    ensures |k| < TWO32
  {
    var h := ParseVarint32(Window(e, 5)).value;
    e[h.used..h.used + h.number]
  }

  /** A whole record: a length-prefixed key followed by a length-prefixed value. */
  predicate IsRecord(e: Bytes) {
    HasKey(e) && HasKey(e[KeyEnd(e)..])
  }

  /** ExtractUserValue: the value, length-prefixed like the key and right after it. */
  function ExtractUserValue(e: Bytes): (v: Bytes)
    requires IsRecord(e)
    ensures |v| < TWO32 && KeyEnd(e) + |v| < RecordSize(e)
  {
    ExtractUserKey(e[KeyEnd(e)..])
  }

  /** Where the record at the start of e ends: its key section and its value section. */
  function RecordSize(e: Bytes): (n: nat)
    requires IsRecord(e)
    ensures 2 <= n <= |e|
  {
    KeyEnd(e) + KeyEnd(e[KeyEnd(e)..])
  }

  /** EntrySize: the length of the record, summed in 32-bit arithmetic. */
  function EntrySize(e: Bytes): (n: uint32)
    requires IsRecord(e)
    ensures n as int <= RecordSize(e)
    ensures RecordSize(e) < TWO32 ==> n as int == RecordSize(e)
  {
    RecordSize(e) % TWO32
  }

  /** A varint32 followed by anything is read back by GetVarint32(p, 5, ...). */
  lemma ParsePrefix(n: uint32, rest: Bytes)
    ensures ParseVarint32(Window(Varint32Bytes(n) + rest, 5)) == Some(Parsed(n, |Varint32Bytes(n)|))
  {
    var e := Varint32Bytes(n) + rest;
    var w := Window(e, 5);
    Leb128Length(n, 5);
    assert Pow128(5) == 0x8_0000_0000;
    var m := |Varint32Bytes(n)|;
    assert w == Varint32Bytes(n) + w[m..] by {
      assert w == e[..|w|];
    }
    Varint32RoundTrip(n, w[m..]);
  }

  lemma WrappedKeyParses(k: Bytes, rest: Bytes)
    requires |k| < TWO32
    ensures HasKey(WrappedKey(k) + rest)
    ensures KeyEnd(WrappedKey(k) + rest) == |WrappedKey(k)|
    ensures ExtractUserKey(WrappedKey(k) + rest) == k
  {
    var e := WrappedKey(k) + rest;
    assert e == Varint32Bytes(|k|) + (k + rest);
    ParsePrefix(|k|, k + rest);
    var m := |Varint32Bytes(|k|)|;
    assert e[m..m + |k|] == k;
  }

  /** A record reads back as its key and value, and its size is its length. */
  lemma RecordParses(k: Bytes, v: Bytes, rest: Bytes)
    requires |k| < TWO32 && |v| < TWO32
    ensures IsRecord(Record(k, v) + rest)
    ensures KeyEnd(Record(k, v) + rest) == |WrappedKey(k)|
    ensures ExtractUserKey(Record(k, v) + rest) == k
    ensures ExtractUserValue(Record(k, v) + rest) == v
    ensures RecordSize(Record(k, v) + rest) == |Record(k, v)|
    ensures EntrySize(Record(k, v) + rest) == |Record(k, v)| % TWO32
  {
    var e := Record(k, v) + rest;
    var tail := Varint32Bytes(|v|) + v + rest;
    assert e == WrappedKey(k) + tail;
    WrappedKeyParses(k, tail);
    assert e[|WrappedKey(k)|..] == tail;
    assert tail == WrappedKey(v) + rest;
    WrappedKeyParses(v, rest);
  }

  /** The record for key k begins with the wrapped key of k. */
  lemma RecordHasWrappedKey(k: Bytes, v: Bytes)
    requires |k| < TWO32 && |v| < TWO32
    ensures Record(k, v) == WrappedKey(k) + WrappedKey(v)
  {
  }

  /** WrapUserKey: a new buffer holding the wrapped key. */
  method WrapUserKey(key: Bytes) returns (buf: array<uint8>)
    requires |key| < TWO32
    ensures fresh(buf)
    ensures buf[..] == WrappedKey(key)
  {
    var len := VarintLength(|key|);
    var encodedLen := len + |key|;
    buf := new uint8[encodedLen];
    var p := EncodeVarint32(buf, 0, |key|);
    var _ := WriteBytes(buf, p, key);
    assert buf[..] == Leb128(|key|) + key;
  }

  // ------------------------------------------------------------------
  // Segment file names: "<level>_<id as %08d>"
  // ------------------------------------------------------------------

  function DigitChar(d: nat): (c: char)
    requires d < 10
    ensures '0' <= c <= '9'
  {
    ('0' as int + d) as char
  }

  predicate IsDigit(c: char) {
    '0' <= c <= '9'
  }

  /** The decimal digits of n, without leading zeros ("0" for zero). */
  function Digits(n: nat): (s: string)
    ensures 1 <= |s|
    ensures forall i :: 0 <= i < |s| ==> IsDigit(s[i])
    ensures n < 10 <==> |s| == 1
    decreases n
  {
    if n < 10 then [DigitChar(n)] else Digits(n / 10) + [DigitChar(n % 10)]
  }

  /** std::to_string of an int. */
  function IntToString(i: int): string {
    if i < 0 then "-" + Digits(-i) else Digits(i)
  }

  function Zeros(n: nat): (s: string)
    ensures |s| == n && forall i :: 0 <= i < n ==> s[i] == '0'
  {
    if n == 0 then [] else Zeros(n - 1) + ['0']
  }

  /** printf's "%08d": at least eight characters, zeros after the sign. */
  function Padded8(i: int): (s: string)
    ensures 8 <= |s|
  {
    var d := Digits(if i < 0 then -i else i);
    if i < 0 then
      "-" + (if |d| < 7 then Zeros(7 - |d|) else []) + d
    else
      (if |d| < 8 then Zeros(8 - |d|) else []) + d
  }

  /**
   * FileName as written: the id is printed into a nine-byte buffer and cut at
   * its ninth byte, so an id with more than eight characters loses its tail.
   */
  function FileNameAsWritten(levelId: int, fileId: int): (r: string)
    ensures |r| == |IntToString(levelId)| + 9
    ensures r[..|IntToString(levelId)| + 1] == IntToString(levelId) + "_"
  {
    IntToString(levelId) + "_" + Padded8(fileId)[..8]
  }

  /**
   * FileName as intended: the level, '_', and the whole zero-padded id. For
   * an id below 10^8 it is the name as written.
   */
  function FileName(levelId: int, fileId: int): (r: string)
    ensures |r| >= |IntToString(levelId)| + 9
    ensures r[..|IntToString(levelId)| + 1] == IntToString(levelId) + "_"
    ensures 0 <= fileId < 100000000 ==> r == FileNameAsWritten(levelId, fileId)
  {
    var r := IntToString(levelId) + "_" + Padded8(fileId);
    if 0 <= fileId < 100000000 then
      assert Pow10(8) == 100000000;
      DigitsBelow(fileId, 8);
      r
    else
      r
  }

  /** A number below 10^k has at most k digits. */
  lemma {:induction false} DigitsBelow(n: nat, k: nat)
    requires 0 < k && n < Pow10(k)
    ensures |Digits(n)| <= k
  {
    if n >= 10 {
      assert n / 10 < Pow10(k - 1);
      DigitsBelow(n / 10, k - 1);
    }
  }

  /** The ids fit in eight characters exactly when the two definitions agree. */
  lemma FileNameAgrees(levelId: int, fileId: int)
    ensures FileNameAsWritten(levelId, fileId) == FileName(levelId, fileId) <==> |Padded8(fileId)| == 8
  {
    var a := FileNameAsWritten(levelId, fileId);
    var b := FileName(levelId, fileId);
    if a == b {
      assert |a| == |b|;
    }
  }

  function Pow10(k: nat): (r: nat)
    ensures 1 <= r
  {
    if k == 0 then 1 else 10 * Pow10(k - 1)
  }

  /** A number of at least 10^k has more than k digits. */
  lemma {:induction false} DigitsAtLeast(n: nat, k: nat)
    requires Pow10(k) <= n
    ensures k < |Digits(n)|
  {
    if k > 0 {
      assert Pow10(k - 1) <= n / 10;
      DigitsAtLeast(n / 10, k - 1);
    }
  }

  /**
   * Appending a digit to an id of eight or more digits does not change its
   * name as written (12345678 and 123456789 share "0_12345678"), while the
   * intended names differ.
   */
  lemma FileNameCollision(levelId: int, n: nat, d: nat)
    requires 10000000 <= n && d < 10
    ensures FileNameAsWritten(levelId, 10 * n + d) == FileNameAsWritten(levelId, n)
    ensures FileName(levelId, 10 * n + d) != FileName(levelId, n)
  {
    assert Pow10(7) == 10000000;
    DigitsAtLeast(n, 7);
    var m := 10 * n + d;
    assert m / 10 == n && m % 10 == d;
    assert Digits(m) == Digits(n) + [DigitChar(d)];
    assert Padded8(m) == Digits(m) && Padded8(n) == Digits(n);
    assert Padded8(m)[..8] == Padded8(n)[..8];
    assert |FileName(levelId, m)| != |FileName(levelId, n)|;
  }
}
