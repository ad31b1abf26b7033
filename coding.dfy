/**
 * Byte encodings of util/coding.cpp: LEB128 varints (the unsigned variable-length
 * integer of section 7.6 of the DWARF 4 standard, as LevelDB uses it) and
 * little-endian fixed-width integers.
 *
 * Bytes are numbers 0..255. The C's bit operations are written as arithmetic:
 * `x >> 7` is `x / 128`, `x & 127` is `x % 128`, a byte `x | 128` is
 * `x % 128 + 128`, and a shift of a 32-bit (64-bit) integer drops the bits past
 * bit 31 (63), which is `% TWO32` (`% TWO64`).
 */
module Coding {
  import opened Wrappers

  type uint8 = x: int | 0 <= x < 0x100
  type uint32 = x: int | 0 <= x < 0x1_0000_0000
  type uint64 = x: int | 0 <= x < 0x1_0000_0000_0000_0000
  type Bytes = seq<uint8>

  const TWO32: nat := 0x1_0000_0000
  const TWO64: nat := 0x1_0000_0000_0000_0000

  /** A decoded number and the count of bytes it occupied. */
  datatype Parsed = Parsed(number: nat, used: nat)

  /** 128^k, the bound below which a number has a LEB128 encoding of at most k bytes. */
  function Pow128(k: nat): (r: nat)
    ensures 1 <= r
  {
    if k == 0 then 1 else 128 * Pow128(k - 1)
  }

  /** 256^k, the bound below which a number fits in k bytes. */
  function Pow256(k: nat): (r: nat)
    ensures 1 <= r
  {
    if k == 0 then 1 else 256 * Pow256(k - 1)
  }

  // ------------------------------------------------------------------
  // Varints
  // ------------------------------------------------------------------

  /** A byte holding the low seven bits of x with the continuation bit set. */
  function WithMore(x: nat): (b: uint8)
    ensures 128 <= b && b % 128 == x % 128
  {
    x % 128 + 128
  }

  /**
   * The LEB128 encoding of v: seven-bit groups, least significant first, every
   * byte but the last with the continuation bit set. This is also what
   * EncodeVarint64's loop writes.
   */
  function Leb128(v: nat): (r: Bytes)
    ensures 1 <= |r|
    decreases v
  {
    if v < 128 then [v] else [WithMore(v)] + Leb128(v / 128)
  }

  /** The five cases of EncodeVarint32, byte for byte as the C writes them. */
  function Varint32Bytes(v: uint32): (r: Bytes)
    ensures r == Leb128(v)
  {
    if v < 0x80 then
      [v]
    else if v < 0x4000 then
      assert Leb128(v / 128) == [v / 128];
      [WithMore(v), v / 0x80]
    else if v < 0x20_0000 then
      assert Leb128(v / 128) == [WithMore(v / 0x80)] + Leb128(v / 0x4000);
      assert Leb128(v / 0x4000) == [v / 0x4000];
      [WithMore(v), WithMore(v / 0x80), v / 0x4000]
    else if v < 0x1000_0000 then
      assert Leb128(v / 128) == [WithMore(v / 0x80)] + Leb128(v / 0x4000);
      assert Leb128(v / 0x4000) == [WithMore(v / 0x4000)] + Leb128(v / 0x20_0000);
      assert Leb128(v / 0x20_0000) == [v / 0x20_0000];
      [WithMore(v), WithMore(v / 0x80), WithMore(v / 0x4000), v / 0x20_0000]
    else
      assert Leb128(v / 128) == [WithMore(v / 0x80)] + Leb128(v / 0x4000);
      assert Leb128(v / 0x4000) == [WithMore(v / 0x4000)] + Leb128(v / 0x20_0000);
      assert Leb128(v / 0x20_0000) == [WithMore(v / 0x20_0000)] + Leb128(v / 0x1000_0000);
      assert Leb128(v / 0x1000_0000) == [v / 0x1000_0000];
      [WithMore(v), WithMore(v / 0x80), WithMore(v / 0x4000), WithMore(v / 0x20_0000), v / 0x1000_0000]
  }

  /** An encoding has at most k bytes exactly when the number is below 128^k. */
  lemma {:induction false} Leb128Length(v: nat, k: nat)
    requires 1 <= k
    ensures |Leb128(v)| <= k <==> v < Pow128(k)
    decreases k
  {
    if v >= 128 && k > 1 {
      Leb128Length(v / 128, k - 1);
      DivBelow(v, Pow128(k - 1));
    }
  }

  lemma DivBelow(v: nat, q: nat)
    ensures v / 128 < q <==> v < 128 * q
  {
  }

  /** The bytes of an encoding: continuation bits on all but the last, groups least significant first. */
  lemma {:induction false} Leb128Shape(v: nat)
    ensures Leb128(v)[|Leb128(v)| - 1] < 128
    ensures forall j :: 0 <= j < |Leb128(v)| - 1 ==> Leb128(v)[j] >= 128
    ensures Leb128(v)[0] % 128 == v % 128
    decreases v
  {
    if v >= 128 {
      Leb128Shape(v / 128);
    }
  }

  /**
   * The number that GetVarint32Ptr / GetVarint64Ptr accumulate from the first
   * at most n bytes of s, before truncation to 32 or 64 bits: None when none of
   * those bytes is a final byte (continuation bit clear).
   */
  function Groups(s: Bytes, n: nat): (r: Option<Parsed>)
    ensures r.Some? ==> 1 <= r.value.used <= n && r.value.used <= |s|
    decreases n
  {
    if n == 0 || |s| == 0 then None
    else if s[0] < 128 then Some(Parsed(s[0], 1))
    else
      match Groups(s[1..], n - 1)
      case None => None
      case Some(p) => Some(Parsed(s[0] - 128 + 128 * p.number, p.used + 1))
  }

  /** The decoder stops at a final byte: the last byte it reads has its continuation bit clear. */
  lemma {:induction false} GroupsFinal(s: Bytes, n: nat)
    requires Groups(s, n).Some?
    ensures s[Groups(s, n).value.used - 1] < 128
    decreases n
  {
    if s[0] >= 128 {
      GroupsFinal(s[1..], n - 1);
    }
  }

  /** The decode fails exactly when no final byte occurs within the first n bytes. */
  lemma {:induction false} GroupsNone(s: Bytes, n: nat)
    ensures Groups(s, n).None? <==> forall j :: 0 <= j < n && j < |s| ==> s[j] >= 128
    decreases n
  {
    if n > 0 && |s| > 0 && s[0] >= 128 {
      GroupsNone(s[1..], n - 1);
      assert forall j :: 1 <= j < n && j < |s| ==> s[j] == s[1..][j - 1];
    }
  }

  /** The decoder reads nothing past the final byte. */
  lemma {:induction false} GroupsPrefix(s: Bytes, n: nat, t: Bytes)
    requires Groups(s, n).Some?
    ensures Groups(s[..Groups(s, n).value.used] + t, n) == Groups(s, n)
    decreases n
  {
    var u := s[..Groups(s, n).value.used] + t;
    assert u[0] == s[0];
    if s[0] >= 128 {
      GroupsPrefix(s[1..], n - 1, t);
      assert u[1..] == s[1..][..Groups(s[1..], n - 1).value.used] + t;
    }
  }

  /** LEB128 followed by anything decodes back to the number, when it fits in n bytes. */
  lemma {:induction false} Leb128Decodes(v: nat, rest: Bytes, n: nat)
    requires |Leb128(v)| <= n
    ensures Groups(Leb128(v) + rest, n) == Some(Parsed(v, |Leb128(v)|))
    decreases v
  {
    var s := Leb128(v) + rest;
    if v >= 128 {
      Leb128Decodes(v / 128, rest, n - 1);
      assert s[1..] == Leb128(v / 128) + rest;
    }
  }

  /** What GetVarint32Ptr decodes: at most five bytes, truncated to 32 bits. */
  function ParseVarint32(s: Bytes): (r: Option<Parsed>)
    ensures r.Some? ==> 1 <= r.value.used <= 5 && r.value.used <= |s| && r.value.number < TWO32
    ensures r.None? <==> Groups(s, 5).None?
  {
    match Groups(s, 5)
    case None => None
    case Some(p) => Some(Parsed(p.number % TWO32, p.used))
  }

  /** What GetVarint64Ptr decodes: at most ten bytes, truncated to 64 bits. */
  function ParseVarint64(s: Bytes): (r: Option<Parsed>)
    ensures r.Some? ==> 1 <= r.value.used <= 10 && r.value.used <= |s| && r.value.number < TWO64
    ensures r.None? <==> Groups(s, 10).None?
  {
    match Groups(s, 10)
    case None => None
    case Some(p) => Some(Parsed(p.number % TWO64, p.used))
  }

  lemma Varint32RoundTrip(v: uint32, rest: Bytes)
    ensures ParseVarint32(Varint32Bytes(v) + rest) == Some(Parsed(v, |Varint32Bytes(v)|))
  {
    assert Pow128(5) == 0x8_0000_0000;
    Leb128Length(v, 5);
    Leb128Decodes(v, rest, 5);
  }

  lemma Varint64RoundTrip(v: uint64, rest: Bytes)
    ensures ParseVarint64(Leb128(v) + rest) == Some(Parsed(v, |Leb128(v)|))
  {
    assert Pow128(10) == 0x40_0000_0000_0000_0000;
    Leb128Length(v, 10);
    Leb128Decodes(v, rest, 10);
  }

  /** A fifth byte above 15 is accepted and its high bits are dropped: the decoder does not reject over-long input. */
  lemma Varint32DropsHighBits()
    ensures ParseVarint32([0xff, 0xff, 0xff, 0xff, 0x7f]) == Some(Parsed(TWO32 - 1, 5))
    ensures ParseVarint32([0x80, 0x80, 0x80, 0x80, 0x80]) == None
  {
    var s: Bytes := [0xff, 0xff, 0xff, 0xff, 0x7f];
    assert Groups(s[4..], 1) == Some(Parsed(0x7f, 1));
    assert s[1..][1..][1..][1..] == s[4..];
    var t: Bytes := [0x80, 0x80, 0x80, 0x80, 0x80];
    GroupsNone(t, 5);
  }

  /** The value the 64-bit codec's unit test round-trips. */
  lemma Varint64TestValue(v: uint64)
    requires v == 4294967295839472
    ensures |Leb128(v)| == 8
    ensures ParseVarint64(Leb128(v)) == Some(Parsed(v, 8))
  {
    assert Pow128(7) == 0x2_0000_0000_0000 && Pow128(8) == 0x100_0000_0000_0000;
    Leb128Length(v, 8);
    Leb128Length(v, 7);
    Varint64RoundTrip(v, []);
    assert Leb128(v) + [] == Leb128(v);
  }

  /** x shifted left by k bits, with no width limit. */
  function Shl(x: nat, k: nat): nat {
    if k == 0 then x else 2 * Shl(x, k - 1)
  }

  lemma {:induction false} ShlAdd(a: nat, b: nat, k: nat)
    ensures Shl(a + b, k) == Shl(a, k) + Shl(b, k)
    decreases k
  {
    if k > 0 {
      ShlAdd(a, b, k - 1);
    }
  }

  lemma {:induction false} ShlShl(x: nat, a: nat, b: nat)
    ensures Shl(Shl(x, a), b) == Shl(x, a + b)
    decreases b
  {
    if b > 0 {
      ShlShl(x, a, b - 1);
    }
  }

  lemma Shl7(x: nat)
    ensures Shl(x, 7) == 128 * x
  {
    assert Shl(x, 1) == 2 * x && Shl(x, 2) == 4 * x && Shl(x, 3) == 8 * x;
    assert Shl(x, 4) == 16 * x && Shl(x, 5) == 32 * x && Shl(x, 6) == 64 * x;
  }

  /** Decoded so far: `low` from the first `i` bytes, the rest still to come at bit 7i. */
  function Lift(r: Option<Parsed>, low: nat, i: nat): Option<Parsed> {
    match r
    case None => None
    case Some(p) => Some(Parsed(low + Shl(p.number, 7 * i), p.used + i))
  }

  lemma GroupsStep(rest: Bytes, n: nat, acc: nat, i: nat)
    requires 1 <= n && 1 <= |rest| && rest[0] >= 128
    ensures Lift(Groups(rest, n), acc, i)
         == Lift(Groups(rest[1..], n - 1), acc + Shl(rest[0] % 128, 7 * i), i + 1)
  {
    match Groups(rest[1..], n - 1)
    case None =>
    case Some(p) =>
      assert Groups(rest, n) == Some(Parsed(rest[0] % 128 + 128 * p.number, p.used + 1));
      ShlAdd(rest[0] % 128, 128 * p.number, 7 * i);
      Shl7(p.number);
      ShlShl(p.number, 7, 7 * i);
      assert 7 + 7 * i == 7 * (i + 1);
  }

  lemma GroupsLast(rest: Bytes, n: nat, acc: nat, i: nat)
    requires 1 <= n && 1 <= |rest| && rest[0] < 128
    ensures Lift(Groups(rest, n), acc, i) == Some(Parsed(acc + Shl(rest[0], 7 * i), i + 1))
  {
  }

  /** The C's `x << shift` on a 32-bit unsigned integer: bits past bit 31 are lost. */
  function Shl32(x: nat, shift: nat): uint32 {
    Shl(x, shift) % TWO32
  }

  /** The C's `x << shift` on a 64-bit unsigned integer. */
  function Shl64(x: nat, shift: nat): uint64 {
    Shl(x, shift) % TWO64
  }

  lemma ModMultiple32(k: nat, r: nat)
    ensures (TWO32 * k + r) % TWO32 == r % TWO32
  {
  }

  lemma ModMultiple64(k: nat, r: nat)
    ensures (TWO64 * k + r) % TWO64 == r % TWO64
  {
  }

  lemma AddMod32(a: nat, t: nat)
    ensures (a + t % TWO32) % TWO32 == (a + t) % TWO32
  {
    ModMultiple32(t / TWO32, a + t % TWO32);
    assert a + t == TWO32 * (t / TWO32) + (a + t % TWO32);
  }

  lemma AddMod64(a: nat, t: nat)
    ensures (a + t % TWO64) % TWO64 == (a + t) % TWO64
  {
    ModMultiple64(t / TWO64, a + t % TWO64);
    assert a + t == TWO64 * (t / TWO64) + (a + t % TWO64);
  }

  /**
   * One step of `result |= group << shift`: the group does not overlap the bits
   * already set, so `|` adds; modulo the width, result keeps equal to the
   * untruncated sum.
   */
  lemma Accumulate32(result: nat, acc: nat, t: nat)
    requires result == acc % TWO32
    ensures (result + t % TWO32) % TWO32 == (acc + t) % TWO32
  {
    AddMod32(result, t);
    AddMod32(t, acc);
  }

  lemma Accumulate64(result: nat, acc: nat, t: nat)
    requires result == acc % TWO64
    ensures (result + t % TWO64) % TWO64 == (acc + t) % TWO64
  {
    AddMod64(result, t);
    AddMod64(t, acc);
  }

  /**
   * The loop of GetVarint32Ptr from byte i on, `result` holding what the
   * earlier bytes contributed: at most five bytes (shift 0, 7, ..., 28).
   */
  function DecodeLoop32(s: Bytes, i: nat, result: uint32): Option<Parsed>
    decreases 5 - i
  {
    if 5 <= i || |s| <= i then None
    else if s[i] >= 128 then DecodeLoop32(s, i + 1, (result + Shl32(s[i] % 128, 7 * i)) % TWO32)
    else Some(Parsed((result + Shl32(s[i], 7 * i)) % TWO32, i + 1))
  }

  /** The loop of GetVarint64Ptr: at most ten bytes (shift 0, 7, ..., 63). */
  function DecodeLoop64(s: Bytes, i: nat, result: uint64): Option<Parsed>
    decreases 10 - i
  {
    if 10 <= i || |s| <= i then None
    else if s[i] >= 128 then DecodeLoop64(s, i + 1, (result + Shl64(s[i] % 128, 7 * i)) % TWO64)
    else Some(Parsed((result + Shl64(s[i], 7 * i)) % TWO64, i + 1))
  }

  /** The number accumulated from the first i bytes, all with the continuation bit set, is `acc`. */
  ghost predicate Prefix(s: Bytes, n: nat, i: nat, acc: nat) {
    i <= n && i <= |s| && Groups(s, n) == Lift(Groups(s[i..], n - i), acc, i)
  }

  lemma PrefixStart(s: Bytes, n: nat)
    ensures Prefix(s, n, 0, 0)
  {
    assert s[0..] == s;
    match Groups(s, n)
    case None =>
    case Some(p) =>
  }

  lemma PrefixStep(s: Bytes, n: nat, i: nat, acc: nat)
    requires Prefix(s, n, i, acc) && i < n && i < |s| && s[i] >= 128
    ensures Prefix(s, n, i + 1, acc + Shl(s[i] % 128, 7 * i))
  {
    assert s[i..][1..] == s[i + 1..];
    GroupsStep(s[i..], n - i, acc, i);
  }

  lemma LoopEnd32(s: Bytes, i: nat, acc: nat, result: uint32)
    requires Prefix(s, 5, i, acc) && (5 <= i || |s| <= i)
    ensures DecodeLoop32(s, i, result) == None == ParseVarint32(s)
  {
  }

  lemma LoopFinal32(s: Bytes, i: nat, acc: nat, result: uint32)
    requires Prefix(s, 5, i, acc) && result == acc % TWO32
    requires i < 5 && i < |s| && s[i] < 128
    ensures DecodeLoop32(s, i, result) == ParseVarint32(s)
  {
    var g := Shl(s[i], 7 * i);
    GroupsLast(s[i..], 5 - i, acc, i);
    assert Groups(s, 5) == Some(Parsed(acc + g, i + 1));
    Accumulate32(result, acc, g);
    assert DecodeLoop32(s, i, result) == Some(Parsed((result + g % TWO32) % TWO32, i + 1));
  }

  lemma LoopStep32(s: Bytes, i: nat, acc: nat, result: uint32)
    requires result == acc % TWO32
    requires i < 5 && i < |s| && s[i] >= 128
    ensures var r := (result + Shl32(s[i] % 128, 7 * i)) % TWO32;
      && r == (acc + Shl(s[i] % 128, 7 * i)) % TWO32
      && DecodeLoop32(s, i, result) == DecodeLoop32(s, i + 1, r)
  {
    Accumulate32(result, acc, Shl(s[i] % 128, 7 * i));
  }

  /** One iteration of the decode loop. */
  lemma DecodeLoop32Unfold(s: Bytes, i: nat, result: uint32, byte: uint8, shift: nat)
    requires i < 5 && i < |s| && byte == s[i] && shift == 7 * i
    ensures byte >= 128 ==> DecodeLoop32(s, i, result) == DecodeLoop32(s, i + 1, (result + Shl32(byte % 128, shift)) % TWO32)
    ensures byte < 128 ==> DecodeLoop32(s, i, result) == Some(Parsed((result + Shl32(byte, shift)) % TWO32, i + 1))
  {
  }

  /** The decode loop computes ParseVarint32: the loop invariant of GetVarint32Ptr. */
  lemma {:induction false} DecodeLoop32Correct(s: Bytes, i: nat, acc: nat, result: uint32)
    requires Prefix(s, 5, i, acc) && result == acc % TWO32
    ensures DecodeLoop32(s, i, result) == ParseVarint32(s)
    decreases 5 - i
  {
    if 5 <= i || |s| <= i {
      LoopEnd32(s, i, acc, result);
    } else if s[i] >= 128 {
      var acc' := acc + Shl(s[i] % 128, 7 * i);
      var result' := (result + Shl32(s[i] % 128, 7 * i)) % TWO32;
      PrefixStep(s, 5, i, acc);
      assert Prefix(s, 5, i + 1, acc');
      LoopStep32(s, i, acc, result);
      DecodeLoop32Correct(s, i + 1, acc', result');
    } else {
      LoopFinal32(s, i, acc, result);
    }
  }

  lemma LoopEnd64(s: Bytes, i: nat, acc: nat, result: uint64)
    requires Prefix(s, 10, i, acc) && (10 <= i || |s| <= i)
    ensures DecodeLoop64(s, i, result) == None == ParseVarint64(s)
  {
  }

  lemma LoopFinal64(s: Bytes, i: nat, acc: nat, result: uint64)
    requires Prefix(s, 10, i, acc) && result == acc % TWO64
    requires i < 10 && i < |s| && s[i] < 128
    ensures DecodeLoop64(s, i, result) == ParseVarint64(s)
  {
    var g := Shl(s[i], 7 * i);
    GroupsLast(s[i..], 10 - i, acc, i);
    assert Groups(s, 10) == Some(Parsed(acc + g, i + 1));
    Accumulate64(result, acc, g);
    assert DecodeLoop64(s, i, result) == Some(Parsed((result + g % TWO64) % TWO64, i + 1));
  }

  lemma LoopStep64(s: Bytes, i: nat, acc: nat, result: uint64)
    requires result == acc % TWO64
    requires i < 10 && i < |s| && s[i] >= 128
    ensures var r := (result + Shl64(s[i] % 128, 7 * i)) % TWO64;
      && r == (acc + Shl(s[i] % 128, 7 * i)) % TWO64
      && DecodeLoop64(s, i, result) == DecodeLoop64(s, i + 1, r)
  {
    Accumulate64(result, acc, Shl(s[i] % 128, 7 * i));
  }

  /** One iteration of the decode loop. */
  lemma DecodeLoop64Unfold(s: Bytes, i: nat, result: uint64, byte: uint8, shift: nat)
    requires i < 10 && i < |s| && byte == s[i] && shift == 7 * i
    ensures byte >= 128 ==> DecodeLoop64(s, i, result) == DecodeLoop64(s, i + 1, (result + Shl64(byte % 128, shift)) % TWO64)
    ensures byte < 128 ==> DecodeLoop64(s, i, result) == Some(Parsed((result + Shl64(byte, shift)) % TWO64, i + 1))
  {
  }

  /** The decode loop computes ParseVarint64: the loop invariant of GetVarint64Ptr. */
  lemma {:induction false} DecodeLoop64Correct(s: Bytes, i: nat, acc: nat, result: uint64)
    requires Prefix(s, 10, i, acc) && result == acc % TWO64
    ensures DecodeLoop64(s, i, result) == ParseVarint64(s)
    decreases 10 - i
  {
    if 10 <= i || |s| <= i {
      LoopEnd64(s, i, acc, result);
    } else if s[i] >= 128 {
      var acc' := acc + Shl(s[i] % 128, 7 * i);
      var result' := (result + Shl64(s[i] % 128, 7 * i)) % TWO64;
      PrefixStep(s, 10, i, acc);
      assert Prefix(s, 10, i + 1, acc');
      LoopStep64(s, i, acc, result);
      DecodeLoop64Correct(s, i + 1, acc', result');
    } else {
      LoopFinal64(s, i, acc, result);
    }
  }

  /**
   * GetVarint32Ptr: decodes a varint from mem[p..limit]; None is the C's NULL
   * (no final byte within five bytes or before limit).
   */
  method GetVarint32Ptr(mem: Bytes, p: nat, limit: nat) returns (q: Option<nat>, value: uint32)
    requires p <= limit <= |mem|
    ensures q.None? <==> ParseVarint32(mem[p..limit]).None?
    ensures q.Some? ==> q.value == p + ParseVarint32(mem[p..limit]).value.used
    ensures q.Some? ==> value == ParseVarint32(mem[p..limit]).value.number
  {
    ghost var s := mem[p..limit];
    PrefixStart(s, 5);
    DecodeLoop32Correct(s, 0, 0, 0);
    value := 0;
    var result: uint32 := 0;
    var shift: nat := 0;
    var cur := p;
    ghost var i: nat := 0;
    while shift <= 28 && cur < limit
      invariant shift == 7 * i && i <= 5 && cur == p + i <= limit
      invariant DecodeLoop32(s, i, result) == DecodeLoop32(s, 0, 0)
    {
      var byte := mem[cur];
      DecodeLoop32Unfold(s, i, result, byte, shift);
      cur := cur + 1;
      if byte >= 128 {
        result := (result + Shl32(byte % 128, shift)) % TWO32;
      } else {
        result := (result + Shl32(byte, shift)) % TWO32;
        value := result;
        q := Some(cur);
        return;
      }
      shift := shift + 7;
      i := i + 1;
    }
    q := None;
  }

  /** GetVarint64Ptr: the same decode with at most ten bytes and 64-bit truncation. */
  method GetVarint64Ptr(mem: Bytes, p: nat, limit: nat) returns (q: Option<nat>, value: uint64)
    requires p <= limit <= |mem|
    ensures q.None? <==> ParseVarint64(mem[p..limit]).None?
    ensures q.Some? ==> q.value == p + ParseVarint64(mem[p..limit]).value.used
    ensures q.Some? ==> value == ParseVarint64(mem[p..limit]).value.number
  {
    ghost var s := mem[p..limit];
    PrefixStart(s, 10);
    DecodeLoop64Correct(s, 0, 0, 0);
    value := 0;
    var result: uint64 := 0;
    var shift: nat := 0;
    var cur := p;
    ghost var i: nat := 0;
    while shift <= 63 && cur < limit
      invariant shift == 7 * i && i <= 10 && cur == p + i <= limit
      invariant DecodeLoop64(s, i, result) == DecodeLoop64(s, 0, 0)
    {
      var byte := mem[cur];
      DecodeLoop64Unfold(s, i, result, byte, shift);
      cur := cur + 1;
      if byte >= 128 {
        result := (result + Shl64(byte % 128, shift)) % TWO64;
      } else {
        result := (result + Shl64(byte, shift)) % TWO64;
        value := result;
        q := Some(cur);
        return;
      }
      shift := shift + 7;
      i := i + 1;
    }
    q := None;
  }

  /** The bytes a reader may look at: the first `size` bytes, or all of them when fewer exist. */
  function Window(data: Bytes, size: nat): (w: Bytes)
    ensures |w| <= size && |w| <= |data| && w == data[..|w|]
    ensures |w| == size || w == data
  {
    if size <= |data| then data[..size] else data
  }

  /** GetVarint32: the number of bytes the varint took, or -1 when it does not decode. */
  method GetVarint32(data: Bytes, size: nat) returns (length: int, value: uint32)
    ensures length == -1 <==> ParseVarint32(Window(data, size)).None?
    ensures length != -1 ==> length == ParseVarint32(Window(data, size)).value.used
    ensures length != -1 ==> value == ParseVarint32(Window(data, size)).value.number
  {
    var w := Window(data, size);
    var q;
    q, value := GetVarint32Ptr(w, 0, |w|);
    assert w[0..|w|] == w;
    if q.None? {
      length := -1;
    } else {
      length := q.value;
    }
  }

  /** GetVarint64: the 64-bit counterpart of GetVarint32. */
  method GetVarint64(data: Bytes, size: nat) returns (length: int, value: uint64)
    ensures length == -1 <==> ParseVarint64(Window(data, size)).None?
    ensures length != -1 ==> length == ParseVarint64(Window(data, size)).value.used
    ensures length != -1 ==> value == ParseVarint64(Window(data, size)).value.number
  {
    var w := Window(data, size);
    var q;
    q, value := GetVarint64Ptr(w, 0, |w|);
    assert w[0..|w|] == w;
    if q.None? {
      length := -1;
    } else {
      length := q.value;
    }
  }

  /** VarintLength: the number of bytes the encoding of v takes. */
  method VarintLength(v: uint64) returns (len: nat)
    ensures len == |Leb128(v)|
  {
    len := 1;
    var w := v;
    while w >= 128
      invariant len + |Leb128(w)| == |Leb128(v)| + 1
      decreases w
    {
      w := w / 128;
      len := len + 1;
    }
  }

  /** memcpy: stores src at dst[pos..]; the rest of dst is unchanged. */
  method WriteBytes(dst: array<uint8>, pos: nat, src: Bytes) returns (end: nat)
    requires pos + |src| <= dst.Length
    modifies dst
    ensures end == pos + |src|
    ensures dst[..] == old(dst[..pos]) + src + old(dst[end..])
  {
    var i := 0;
    while i < |src|
      invariant 0 <= i <= |src|
      invariant forall k :: 0 <= k < pos ==> dst[k] == old(dst[k])
      invariant forall k :: 0 <= k < i ==> dst[pos + k] == src[k]
      invariant forall k :: pos + i <= k < dst.Length ==> dst[k] == old(dst[k])
    {
      dst[pos + i] := src[i];
      i := i + 1;
    }
    end := pos + |src|;
    assert dst[..] == old(dst[..pos]) + src + old(dst[end..]);
  }

  /** EncodeVarint32: writes the five-case encoding at dst[pos..] and returns the position after it. */
  method EncodeVarint32(dst: array<uint8>, pos: nat, v: uint32) returns (end: nat)
    requires pos + |Leb128(v)| <= dst.Length
    modifies dst
    ensures end == pos + |Leb128(v)|
    ensures dst[..] == old(dst[..pos]) + Leb128(v) + old(dst[end..])
  {
    end := WriteBytes(dst, pos, Varint32Bytes(v));
  }

  /** EncodeVarint64: the loop that emits seven bits at a time. */
  method EncodeVarint64(dst: array<uint8>, pos: nat, v: uint64) returns (end: nat)
    requires pos + |Leb128(v)| <= dst.Length
    modifies dst
    ensures end == pos + |Leb128(v)|
    ensures dst[..] == old(dst[..pos]) + Leb128(v) + old(dst[end..])
  {
    ghost var enc := Leb128(v);
    var ptr := pos;
    var w: nat := v;
    while w >= 128
      invariant pos <= ptr && ptr + |Leb128(w)| == pos + |enc|
      invariant Leb128(w) == enc[ptr - pos..]
      invariant forall k :: 0 <= k < pos ==> dst[k] == old(dst[k])
      invariant forall k :: pos <= k < ptr ==> dst[k] == enc[k - pos]
      invariant forall k :: ptr <= k < dst.Length ==> dst[k] == old(dst[k])
      decreases w
    {
      LebTail(enc, ptr - pos, w);
      dst[ptr] := w % 128 + 128;
      ptr := ptr + 1;
      w := w / 128;
    }
    assert enc[ptr - pos] == w;
    dst[ptr] := w;
    end := ptr + 1;
    assert dst[..] == old(dst[..pos]) + enc + old(dst[end..]);
  }

  lemma LebTail(enc: Bytes, j: nat, w: nat)
    requires w >= 128 && j <= |enc| && Leb128(w) == enc[j..]
    ensures j + 1 < |enc| && enc[j] == WithMore(w) && Leb128(w / 128) == enc[j + 1..]
  {
    assert enc[j..][1..] == enc[j + 1..];
  }

  // ------------------------------------------------------------------
  // Fixed-width little-endian integers
  // ------------------------------------------------------------------

  /** The n low-order bytes of v, least significant first. */
  function LittleEndian(v: nat, n: nat): (r: Bytes)
    ensures |r| == n
  {
    if n == 0 then [] else [v % 256] + LittleEndian(v / 256, n - 1)
  }

  /** The number whose little-endian bytes are b. */
  function FromLittleEndian(b: Bytes): (r: nat)
    ensures r < Pow256(|b|)
  {
    if b == [] then 0 else b[0] + 256 * FromLittleEndian(b[1..])
  }

  lemma {:induction false} LittleEndianRoundTrip(v: nat, n: nat)
    requires v < Pow256(n)
    ensures FromLittleEndian(LittleEndian(v, n)) == v
    decreases n
  {
    if n > 0 {
      assert v / 256 < Pow256(n - 1);
      LittleEndianRoundTrip(v / 256, n - 1);
      assert LittleEndian(v, n)[1..] == LittleEndian(v / 256, n - 1);
    }
  }

  lemma {:induction false} FromLittleEndianRoundTrip(b: Bytes)
    ensures LittleEndian(FromLittleEndian(b), |b|) == b
    decreases |b|
  {
    if b != [] {
      var q := FromLittleEndian(b[1..]);
      var v := b[0] + 256 * q;
      assert v % 256 == b[0] && v / 256 == q;
      FromLittleEndianRoundTrip(b[1..]);
      assert LittleEndian(v, |b|) == [b[0]] + LittleEndian(q, |b| - 1);
    }
  }

  /** EncodeFixed32 on a little-endian host (a memcpy of the integer). */
  function Fixed32Bytes(v: uint32): (r: Bytes)
    ensures |r| == 4
  {
    LittleEndian(v, 4)
  }

  function Fixed64Bytes(v: uint64): (r: Bytes)
    ensures |r| == 8
  {
    LittleEndian(v, 8)
  }

  /** GetFixed32: the integer stored in the first four bytes; its encoding is exactly those bytes. */
  function GetFixed32(buf: Bytes): (r: uint32)
    requires 4 <= |buf|
    ensures Fixed32Bytes(r) == buf[..4]
  {
    assert Pow256(4) == TWO32;
    FromLittleEndianRoundTrip(buf[..4]);
    FromLittleEndian(buf[..4])
  }

  /** GetFixed64: the integer stored in the first eight bytes. */
  function GetFixed64(buf: Bytes): (r: uint64)
    requires 8 <= |buf|
    ensures Fixed64Bytes(r) == buf[..8]
  {
    assert Pow256(8) == TWO64;
    FromLittleEndianRoundTrip(buf[..8]);
    FromLittleEndian(buf[..8])
  }

  lemma Fixed32RoundTrip(v: uint32, rest: Bytes)
    ensures GetFixed32(Fixed32Bytes(v) + rest) == v
  {
    assert Pow256(4) == TWO32;
    assert (Fixed32Bytes(v) + rest)[..4] == Fixed32Bytes(v);
    LittleEndianRoundTrip(v, 4);
  }

  lemma Fixed64RoundTrip(v: uint64, rest: Bytes)
    ensures GetFixed64(Fixed64Bytes(v) + rest) == v
  {
    assert Pow256(8) == TWO64;
    assert (Fixed64Bytes(v) + rest)[..8] == Fixed64Bytes(v);
    LittleEndianRoundTrip(v, 8);
  }

  method EncodeFixed32(buf: array<uint8>, pos: nat, value: uint32)
    requires pos + 4 <= buf.Length
    modifies buf
    ensures buf[..] == old(buf[..pos]) + Fixed32Bytes(value) + old(buf[pos + 4..])
  {
    var _ := WriteBytes(buf, pos, Fixed32Bytes(value));
  }

  method EncodeFixed64(buf: array<uint8>, pos: nat, value: uint64)
    requires pos + 8 <= buf.Length
    modifies buf
    ensures buf[..] == old(buf[..pos]) + Fixed64Bytes(value) + old(buf[pos + 8..])
  {
    var _ := WriteBytes(buf, pos, Fixed64Bytes(value));
  }
}
