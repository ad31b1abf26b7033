/**
 * db/file.h: a segment file as the storage engine holds it.
 *
 * A segment is named "<level>_<id>"; opening it parses the two ids from the
 * name with std::stoi, maps the file and reads the header, whose two
 * length-prefixed strings are the file's lower and upper bound. The file
 * system is a map from path to contents; the mapping is a copy of the first
 * file_size_ bytes, file_size_ being the 32-bit size stat reports.
 */
module Files {
  import opened Wrappers
  import opened Coding
  import opened Utils

  const TWO31: int := 0x8000_0000

  /** The file system: the contents of every file, by path. */
  type Disk = map<string, Bytes>

  /** Writing a path twice leaves the second contents. */
  lemma Overwritten(disk: Disk, path: string, first: Bytes, second: Bytes)
    ensures disk[path := first][path := second] == disk[path := second]
  {
  }

  datatype File = File(
    levelId: int,
    fileId: int,
    fileSize: uint32,
    fileName: string,
    lowerBound: Bytes,
    upperBound: Bytes,
    mmap: Bytes)

  /** FilePath: the data folder, a slash, the file name. */
  function FilePath(folder: string, name: string): (path: string)
    ensures |path| == |folder| + 1 + |name| && path[|folder|] == '/'
  {
    folder + "/" + name
  }

  /** Two names in one folder have the same path only when they are the same name. */
  lemma FilePathInjective(folder: string, a: string, b: string)
    ensures FilePath(folder, a) == FilePath(folder, b) <==> a == b
  {
    var pa, pb := FilePath(folder, a), FilePath(folder, b);
    if pa == pb {
      assert a == pa[|folder| + 1..] && b == pb[|folder| + 1..];
    }
  }

  // ------------------------------------------------------------------
  // std::stoi
  // ------------------------------------------------------------------

  /** isspace in the C locale. */
  predicate IsSpace(c: char) {
    c == ' ' || c == '\t' || c == '\n' || c == '\U{000B}' || c == '\U{000C}' || c == '\r'
  }

  /** The number of whitespace characters s starts with. */
  function Spaces(s: string): (n: nat)
    ensures n <= |s| && (n < |s| ==> !IsSpace(s[n]))
    ensures forall i :: 0 <= i < n ==> IsSpace(s[i])
  {
    if s != [] && IsSpace(s[0]) then 1 + Spaces(s[1..]) else 0
  }

  /** The number of decimal digits s starts with. */
  function DigitRun(s: string): (n: nat)
    ensures n <= |s| && (n < |s| ==> !IsDigit(s[n]))
    ensures forall i :: 0 <= i < n ==> IsDigit(s[i])
  {
    if s != [] && IsDigit(s[0]) then 1 + DigitRun(s[1..]) else 0
  }

  function DigitOf(c: char): (d: nat)
    requires IsDigit(c)
    ensures d < 10
  {
    c as int - '0' as int
  }

  /** The number a string of decimal digits denotes, most significant first. */
  function Value(ds: string): nat
    requires forall i :: 0 <= i < |ds| ==> IsDigit(ds[i])
  {
    if ds == [] then 0
    else 10 * Value(ds[..|ds| - 1]) + DigitOf(ds[|ds| - 1])
  }

  function Signed(negative: bool, n: nat): int {
    if negative then -(n as int) else n
  }

  /**
   * std::stoi: after leading whitespace and an optional sign, the longest
   * run of decimal digits, which must not be empty (std::invalid_argument)
   * and must denote a 32-bit int (std::out_of_range); None for either
   * exception.
   */
  function Stoi(s: string): (r: Option<int>)
    ensures r.Some? ==> -TWO31 <= r.value < TWO31
  {
    var t := s[Spaces(s)..];
    var signed := |t| > 0 && (t[0] == '-' || t[0] == '+');
    var u := if signed then t[1..] else t;
    var n := DigitRun(u);
    if n == 0 then None
    else
      var v := Signed(signed && t[0] == '-', Value(u[..n]));
      if -TWO31 <= v < TWO31 then Some(v) else None
  }

  // ------------------------------------------------------------------
  // Decimal text read back
  // ------------------------------------------------------------------

  lemma {:induction false} ValueDigits(n: nat)
    ensures Value(Digits(n)) == n
    decreases n
  {
    if n >= 10 {
      ValueDigits(n / 10);
      var d := Digits(n);
      assert d[..|d| - 1] == Digits(n / 10);
    }
  }

  /** Leading zeros do not change the number. */
  lemma {:induction false} ValueZeros(k: nat, ds: string)
    requires forall i :: 0 <= i < |ds| ==> IsDigit(ds[i])
    ensures forall i :: 0 <= i < |Zeros(k) + ds| ==> IsDigit((Zeros(k) + ds)[i])
    ensures Value(Zeros(k) + ds) == Value(ds)
    decreases k + |ds|
  {
    var s := Zeros(k) + ds;
    assert forall i :: 0 <= i < |s| ==> IsDigit(s[i]) by {
      forall i | 0 <= i < |s|
        ensures IsDigit(s[i])
      {
        if i >= k {
          assert s[i] == ds[i - k];
        }
      }
    }
    if ds == [] {
      assert s == Zeros(k);
      if k > 0 {
        assert s[..|s| - 1] == Zeros(k - 1) + [];
        ValueZeros(k - 1, []);
      }
    } else {
      assert s[..|s| - 1] == Zeros(k) + ds[..|ds| - 1];
      ValueZeros(k, ds[..|ds| - 1]);
    }
  }

  /** A digit run followed by a character that is not a digit is cut there. */
  lemma {:induction false} DigitRunUpTo(ds: string, rest: string)
    requires forall i :: 0 <= i < |ds| ==> IsDigit(ds[i])
    requires rest == [] || !IsDigit(rest[0])
    ensures DigitRun(ds + rest) == |ds|
    decreases |ds|
  {
    if ds != [] {
      assert (ds + rest)[1..] == ds[1..] + rest;
      DigitRunUpTo(ds[1..], rest);
    }
  }

  /** stoi of an optional minus sign, digits, and a character that is not a digit (or nothing). */
  lemma {:induction false} StoiDigits(negative: bool, ds: string, rest: string)
    requires ds != [] && forall i :: 0 <= i < |ds| ==> IsDigit(ds[i])
    requires rest == [] || !IsDigit(rest[0])
    requires -TWO31 <= Signed(negative, Value(ds)) < TWO31
    ensures Stoi((if negative then "-" else "") + ds + rest) == Some(Signed(negative, Value(ds)))
  {
    var s := (if negative then "-" else "") + ds + rest;
    assert !IsSpace(s[0]);
    assert Spaces(s) == 0;
    assert s[0..] == s;
    var u := ds + rest;
    if negative {
      assert s[1..] == u;
    } else {
      assert s == u;
    }
    DigitRunUpTo(ds, rest);
    assert u[..|ds|] == ds;
  }

  /** stoi reads back std::to_string (and printf's %d) of any int. */
  lemma StoiIntToString(i: int, rest: string)
    requires -TWO31 <= i < TWO31 && (rest == [] || !IsDigit(rest[0]))
    ensures Stoi(IntToString(i) + rest) == Some(i)
  {
    var d := Digits(if i < 0 then -i else i);
    ValueDigits(if i < 0 then -i else i);
    StoiDigits(i < 0, d, rest);
    assert IntToString(i) == (if i < 0 then "-" else "") + d;
  }

  /** "%08d" is the sign, then digits that denote the magnitude. */
  lemma PaddedDigits(i: int) returns (z: string)
    ensures z != [] && forall j :: 0 <= j < |z| ==> IsDigit(z[j])
    ensures Value(z) == if i < 0 then -i else i
    ensures Padded8(i) == (if i < 0 then "-" else "") + z
  {
    var n := if i < 0 then -i else i;
    var d := Digits(n);
    var k := PadLength(i);
    z := Zeros(k) + d;
    ValueDigits(n);
    ValueZeros(k, d);
  }

  /** The number of zeros "%08d" puts between the sign and the digits. */
  lemma PadLength(i: int) returns (k: nat)
    ensures Padded8(i) == (if i < 0 then "-" else "") + (Zeros(k) + Digits(if i < 0 then -i else i))
  {
    var d := Digits(if i < 0 then -i else i);
    var width := if i < 0 then 7 else 8;
    var pad := if |d| < width then Zeros(width - |d|) else [];
    k := |pad|;
    assert pad == Zeros(k);
  }

  /** stoi reads back the zero padded "%08d" of any int. */
  lemma StoiPadded(i: int)
    requires -TWO31 <= i < TWO31
    ensures Stoi(Padded8(i)) == Some(i)
  {
    var z := PaddedDigits(i);
    StoiDigits(i < 0, z, []);
    assert Padded8(i) == (if i < 0 then "-" else "") + z + [];
  }

  // ------------------------------------------------------------------
  // The name of a segment
  // ------------------------------------------------------------------

  /** std::string::find("_"): the first underscore, None for npos. */
  function FindUnderscore(s: string): (r: Option<nat>)
    ensures r.Some? ==> r.value < |s| && s[r.value] == '_'
    ensures forall i :: 0 <= i < (if r.Some? then r.value else |s|) ==> s[i] != '_'
  {
    if s == [] then None
    else if s[0] == '_' then Some(0)
    else match FindUnderscore(s[1..])
      case None => None
      case Some(p) => Some(p + 1)
  }

  /**
   * The level id is stoi of the text before the first '_', the file id
   * stoi of the text after it. Without an underscore, substr(0, npos) is the
   * whole name and npos + 1 wraps to 0, so both ids are stoi of the whole
   * name. None where stoi throws.
   */
  function ParseName(name: string): (r: Option<(int, int)>)
    ensures FindUnderscore(name).None? && r.Some? ==> r.value.0 == r.value.1
  {
    var texts :=
      match FindUnderscore(name)
      case Some(p) => (name[..p], name[p + 1..])
      case None => (name, name);
    match (Stoi(texts.0), Stoi(texts.1))
    case (Some(l), Some(i)) => Some((l, i))
    case _ => None
  }

  /** The name FileName gives a segment parses back to its level and id. */
  lemma NameRoundTrip(levelId: int, fileId: int)
    requires -TWO31 <= levelId < TWO31 && -TWO31 <= fileId < TWO31
    ensures ParseName(FileName(levelId, fileId)) == Some((levelId, fileId))
  {
    var l, p := IntToString(levelId), Padded8(fileId);
    var name := FileName(levelId, fileId);
    assert name == l + "_" + p;
    var d := Digits(if levelId < 0 then -levelId else levelId);
    assert forall i :: 0 <= i < |d| ==> IsDigit(d[i]);
    assert forall i :: 0 <= i < |l| ==> l[i] != '_';
    var f := FindUnderscore(name);
    assert name[|l|] == '_';
    assert f == Some(|l|);
    assert name[..|l|] == l + [] && name[|l| + 1..] == p;
    StoiIntToString(levelId, []);
    StoiPadded(fileId);
  }

  // ------------------------------------------------------------------
  // Opening a segment
  // ------------------------------------------------------------------

  /** What a file's mapping holds: its first file_size_ bytes, file_size_ being its size in 32 bits. */
  function Mapped(data: Bytes): (m: Bytes)
    ensures |m| <= |data| && |m| < TWO32 && m == data[..|m|]
    ensures |data| < TWO32 ==> m == data
  {
    data[..|data| % TWO32]
  }

  /**
   * The header part of the File constructor: a varint length and the lower
   * bound, then a varint length and the upper bound, each read from at most
   * five bytes. ok is false where a length does not parse or its string runs
   * past the mapping (the C then reads out of bounds).
   */
  method ReadBounds(data: Bytes) returns (ok: bool, lowerBound: Bytes, upperBound: Bytes)
    ensures ok <==> IsRecord(data)
    ensures ok ==> lowerBound == ExtractUserKey(data) && upperBound == ExtractUserValue(data)
  {
    lowerBound, upperBound := [], [];
    var len, keySize := GetVarint32(data, 5);
    LengthPrefixed(data, len, keySize);
    if len == -1 || len + keySize > |data| {
      return false, lowerBound, upperBound;
    }
    var p := len;
    lowerBound := data[p..p + keySize];
    p := p + keySize;
    var rest := data[p..];
    len, keySize := GetVarint32(rest, 5);
    LengthPrefixed(rest, len, keySize);
    if len == -1 || len + keySize > |rest| {
      return false, lowerBound, upperBound;
    }
    upperBound := rest[len..len + keySize];
    ok := true;
  }

  /** What GetVarint32(p, 5, &size) says about the length-prefixed string at p. */
  lemma LengthPrefixed(s: Bytes, len: int, size: uint32)
    requires len == -1 <==> ParseVarint32(Window(s, 5)).None?
    requires len != -1 ==> len == ParseVarint32(Window(s, 5)).value.used
    requires len != -1 ==> size == ParseVarint32(Window(s, 5)).value.number
    ensures HasKey(s) <==> len != -1 && len + size <= |s|
    ensures HasKey(s) ==> KeyEnd(s) == len + size && ExtractUserKey(s) == s[len..len + size]
  {
  }

  /**
   * The File constructor succeeds: std::stoi reads both ids, the file
   * exists, and its header parses.
   */
  predicate Opens(folder: string, disk: Disk, name: string) {
    ParseName(name).Some? && FilePath(folder, name) in disk && IsRecord(Mapped(disk[FilePath(folder, name)]))
  }

  /** The File the constructor builds: ids from the name, the mapping, its size and the bounds in its header. */
  function Opened(folder: string, disk: Disk, name: string): File
    requires Opens(folder, disk, name)
  {
    var data := Mapped(disk[FilePath(folder, name)]);
    var ids := ParseName(name).value;
    File(ids.0, ids.1, |data|, name, ExtractUserKey(data), ExtractUserValue(data), data)
  }

  /**
   * The File constructor: the ids from the name, the size, the mapping and
   * the bounds read from it. None where std::stoi throws, where the file
   * does not exist (stat fails and the mapping with it), or where the header
   * does not parse.
   */
  method OpenFile(folder: string, disk: Disk, name: string) returns (r: Option<File>)
    ensures r.Some? <==> Opens(folder, disk, name)
    ensures r.Some? ==> r.value == Opened(folder, disk, name)
  {
    var ids := ParseName(name);
    var path := FilePath(folder, name);
    if ids.None? || path !in disk {
      return None;
    }
    var data := Mapped(disk[path]);
    var fileSize: uint32 := |data|;
    var ok, lowerBound, upperBound := ReadBounds(data);
    if !ok {
      return None;
    }
    return Some(File(ids.value.0, ids.value.1, fileSize, name, lowerBound, upperBound, data));
  }
}
