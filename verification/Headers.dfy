/** Header fields as the HPACK tables store them, and the total order that stands for
    the comparison the encoder index searches by. */
module Headers {

  type byte = b: int | 0 <= b < 256
  type Bytes = seq<byte>

  datatype Header = Header(name: Bytes, value: Bytes)

  /** The length of the stored string: name and value, without a separator. */
  function Len(h: Header): nat {
    |h.name| + |h.value|
  }

  /** Number of entries of the static table; the dynamic indices follow it. */
  const STATIC_ENTRIES: nat := 61

  /** Overhead of a table entry, section 4.1 of RFC 7541. */
  const ENTRY_OVERHEAD: nat := 32

  function EntrySize(h: Header): nat {
    ENTRY_OVERHEAD + Len(h)
  }

  /** Lexicographic comparison of two strings: negative, zero or positive. */
  function CompareBytes(a: Bytes, b: Bytes): (r: int)
    ensures r == 0 <==> a == b
  {
    if a == [] then (if b == [] then 0 else -1)
    else if b == [] then 1
    else if a[0] != b[0] then a[0] - b[0]
    else
      assert a == [a[0]] + a[1..] && b == [b[0]] + b[1..];
      CompareBytes(a[1..], b[1..])
  }

  lemma {:induction false} CompareBytesAntisymmetric(a: Bytes, b: Bytes)
    ensures CompareBytes(a, b) < 0 <==> CompareBytes(b, a) > 0
  {
    if a != [] && b != [] && a[0] == b[0] {
      CompareBytesAntisymmetric(a[1..], b[1..]);
    }
  }

  lemma {:induction false} CompareBytesTransitive(a: Bytes, b: Bytes, c: Bytes)
    requires CompareBytes(a, b) < 0 && CompareBytes(b, c) < 0
    ensures CompareBytes(a, c) < 0
  {
    if a != [] && b != [] && c != [] && a[0] == b[0] && b[0] == c[0] {
      CompareBytesTransitive(a[1..], b[1..], c[1..]);
    }
  }

  /** The order of the index: by name first, then by value. */
  function Compare(a: Header, b: Header): (r: int)
    ensures r == 0 <==> a == b
  {
    if a.name != b.name then CompareBytes(a.name, b.name) else CompareBytes(a.value, b.value)
  }

  predicate Less(a: Header, b: Header) {
    Compare(a, b) < 0
  }

  lemma CompareAntisymmetric(a: Header, b: Header)
    ensures Compare(a, b) > 0 <==> Less(b, a)
    ensures !(Less(a, b) && Less(b, a))
  {
    CompareBytesAntisymmetric(a.name, b.name);
    CompareBytesAntisymmetric(a.value, b.value);
  }

  lemma LessTransitive(a: Header, b: Header, c: Header)
    requires Less(a, b) && Less(b, c)
    ensures Less(a, c)
  {
    if a.name == b.name && b.name == c.name {
      CompareBytesTransitive(a.value, b.value, c.value);
    } else if a.name != b.name && b.name != c.name {
      CompareBytesTransitive(a.name, b.name, c.name);
    }
  }

  /** Headers of one name are neighbours in the order: what lies between two of them,
      or between one of them and a header on its far side, keeps to the same side. */
  lemma NamesAreConvex(a: Header, b: Header, c: Header)
    requires Less(a, b) && Less(b, c)
    requires b.name != c.name
    ensures a.name != c.name
  {
    if a.name == c.name {
      CompareBytesAntisymmetric(a.name, b.name);
    }
  }

  lemma NamesAreConvexDual(a: Header, b: Header, c: Header)
    requires Less(a, b) && Less(b, c)
    requires a.name != b.name
    ensures a.name != c.name
  {
    if a.name == c.name {
      CompareBytesAntisymmetric(a.name, b.name);
    }
  }
}
