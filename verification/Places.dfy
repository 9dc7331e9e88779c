/** Strings at places of a longer string. */
module Places {
  import opened Octets

  /** `s` stands in `d` at `pos`. */
  ghost predicate At(d: Bytes, pos: nat, s: Bytes) {
    pos + |s| <= |d| && d[pos..pos + |s|] == s
  }

  /** Of two strings in a row, both stand where they should. */
  lemma AtSplit(d: Bytes, pos: nat, s: Bytes, t: Bytes)
    requires At(d, pos, s + t)
    ensures At(d, pos, s) && At(d, pos + |s|, t)
  {
    assert d[pos..pos + |s|] == (s + t)[..|s|] && d[pos + |s|..pos + |s| + |t|] == (s + t)[|s|..];
  }

  lemma AtJoin(d: Bytes, pos: nat, s: Bytes, t: Bytes)
    requires At(d, pos, s) && At(d, pos + |s|, t)
    ensures At(d, pos, s + t)
  {
    assert d[pos..pos + |s + t|] == d[pos..pos + |s|] + d[pos + |s|..pos + |s| + |t|];
  }

  lemma AtByte(d: Bytes, pos: nat, b: Byte)
    requires At(d, pos, [b])
    ensures pos < |d| && d[pos] == b
  {
    assert d[pos..pos + 1] == [d[pos]];
  }

  lemma ByteAt(d: Bytes, pos: nat)
    requires pos < |d|
    ensures At(d, pos, [d[pos]])
  {
    assert d[pos..pos + 1] == [d[pos]];
  }

  lemma WholeAt(d: Bytes, s: Bytes)
    requires At(d, 0, s) && |s| == |d|
    ensures d == s
  {
  }
}
