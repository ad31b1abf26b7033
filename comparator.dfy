/**
 * util/comparator.h: the comparator of the skip list orders records by their
 * user keys alone, so two records for one key with different values are equal.
 */
module KeyComparator {
  import opened Coding
  import opened Utils

  /** Comparator::operator(): Compare on the extracted user keys. */
  function CompareEntries(a: Bytes, b: Bytes): (r: int)
    requires HasKey(a) && HasKey(b)
    ensures r == -1 <==> Less(ExtractUserKey(a), ExtractUserKey(b))
    ensures r == 0 <==> ExtractUserKey(a) == ExtractUserKey(b)
    ensures r == 1 <==> Less(ExtractUserKey(b), ExtractUserKey(a))
  {
    Compare(ExtractUserKey(a), ExtractUserKey(b))
  }

  /** Records for the same key compare equal, whatever their values. */
  lemma SameKeyEqual(k: Bytes, v1: Bytes, v2: Bytes)
    requires |k| < TWO32 && |v1| < TWO32 && |v2| < TWO32
    ensures HasKey(Record(k, v1)) && HasKey(Record(k, v2))
    ensures CompareEntries(Record(k, v1), Record(k, v2)) == 0
  {
    RecordParses(k, v1, []);
    RecordParses(k, v2, []);
    assert Record(k, v1) + [] == Record(k, v1);
    assert Record(k, v2) + [] == Record(k, v2);
  }

  /** A record and the wrapped key used to look it up compare as their keys do. */
  lemma RecordAgainstWrappedKey(k: Bytes, v: Bytes, key: Bytes)
    requires |k| < TWO32 && |v| < TWO32 && |key| < TWO32
    ensures HasKey(Record(k, v)) && HasKey(WrappedKey(key))
    ensures CompareEntries(Record(k, v), WrappedKey(key)) == Compare(k, key)
  {
    RecordParses(k, v, []);
    assert Record(k, v) + [] == Record(k, v);
    WrappedKeyParses(key, []);
    assert WrappedKey(key) + [] == WrappedKey(key);
  }

  lemma Antisymmetric(a: Bytes, b: Bytes)
    requires HasKey(a) && HasKey(b)
    ensures CompareEntries(a, b) == -CompareEntries(b, a)
  {
  }

  /** The comparator is a total preorder: transitive for both < and <=. */
  lemma Transitive(a: Bytes, b: Bytes, c: Bytes)
    requires HasKey(a) && HasKey(b) && HasKey(c)
    requires CompareEntries(a, b) <= 0 && CompareEntries(b, c) <= 0
    ensures CompareEntries(a, c) <= 0
    ensures CompareEntries(a, b) < 0 || CompareEntries(b, c) < 0 ==> CompareEntries(a, c) < 0
  {
    var ka, kb, kc := ExtractUserKey(a), ExtractUserKey(b), ExtractUserKey(c);
    if Less(ka, kb) && Less(kb, kc) {
      LessTransitive(ka, kb, kc);
    }
  }
}
