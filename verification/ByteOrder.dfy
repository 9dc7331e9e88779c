/** Byte strings in dictionary order. */
module ByteOrder {
  import opened Octets

  predicate BytesLess(a: Bytes, b: Bytes) {
    b != [] && (a == [] || a[0] < b[0] || (a[0] == b[0] && BytesLess(a[1..], b[1..])))
  }

  lemma {:induction false} BytesLessIsStrict(a: Bytes)
    ensures !BytesLess(a, a)
    decreases |a|
  {
    if a != [] {
      BytesLessIsStrict(a[1..]);
    }
  }

  lemma {:induction false} BytesLessIsTransitive(a: Bytes, b: Bytes, c: Bytes)
    requires BytesLess(a, b) && BytesLess(b, c)
    ensures BytesLess(a, c)
    decreases |a|
  {
    if a != [] && a[0] == b[0] && b[0] == c[0] {
      BytesLessIsTransitive(a[1..], b[1..], c[1..]);
    }
  }

  lemma {:induction false} BytesLessIsTotal(a: Bytes, b: Bytes)
    requires !BytesLess(a, b) && a != b
    ensures BytesLess(b, a)
    decreases |a|
  {
    if a != [] && b != [] && a[0] == b[0] {
      assert a == [a[0]] + a[1..] && b == [b[0]] + b[1..];
      BytesLessIsTotal(a[1..], b[1..]);
    }
  }
}
