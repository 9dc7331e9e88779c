/** Writing a pack index and reading it back: every id that was written is found, with an offset
    recorded for it, and no other. */
module PackIndexFile {
  import opened ByteOrder
  import opened Endian
  import opened Objects
  import opened Octets
  import opened PackIndex

  // ---- the file ----

  ghost predicate NoEmptyId(es: seq<IdxEntry>) {
    forall k :: 0 <= k < |es| ==> es[k].oid != []
  }

  /** What the format can hold. */
  ghost predicate WithinLimits(es: seq<IdxEntry>, raw: nat) {
    AllValid(es, raw) && |es| < U32 && LargeCount(es) < LARGE
  }

  ghost function Head(es: seq<IdxEntry>): (b: Bytes)
    requires NoEmptyId(es)
    ensures |b| == OIDS_AT
  {
    MAGIC + BigEndian(2, 4) + FanTable(es, 256)
  }

  /** All but the checksum of the file itself. */
  ghost function Body(es: seq<IdxEntry>, trailer: Bytes): Bytes
    requires NoEmptyId(es)
  {
    Head(es) + OidTable(es) + CrcTable(es) + OffsetTable(es) + LargeTable(es) + trailer
  }

  lemma IdsAreNotEmpty(es: seq<IdxEntry>, algo: HashAlgo)
    requires AllValid(es, RawLen(algo))
    ensures NoEmptyId(es)
  {
    forall k | 0 <= k < |es|
      ensures es[k].oid != []
    {
      assert es[k].Valid(RawLen(algo));
    }
  }

  // ---- where the tables are ----

  /** A row of a table in the middle of a file. */
  lemma RowInside(a: Bytes, t: Bytes, z: Bytes, w: nat, k: nat)
    requires w * k + w <= |t|
    ensures |a| + w * k + w <= |a + t + z| && Row(a + t + z, |a|, w, k) == Row(t, 0, w, k)
  {
    assert (a + t + z)[|a| + w * k..|a| + w * k + w] == t[w * k..w * k + w];
  }

  /** The four tables behind the fan-out, each with what is before and behind it. */
  lemma Parts(es: seq<IdxEntry>, trailer: Bytes, sum: Bytes)
    requires NoEmptyId(es)
    ensures var d := Body(es, trailer) + sum;
            var z := trailer + sum;
            && d == Head(es) + OidTable(es) + (CrcTable(es) + OffsetTable(es) + LargeTable(es) + z)
            && d == (Head(es) + OidTable(es) + CrcTable(es)) + OffsetTable(es) + (LargeTable(es) + z)
            && d == (Head(es) + OidTable(es) + CrcTable(es) + OffsetTable(es)) + LargeTable(es) + z
  {
    hide Head, OidTable, CrcTable, OffsetTable, LargeTable;
    var h, o, c, f, l, z := Head(es), OidTable(es), CrcTable(es), OffsetTable(es), LargeTable(es), trailer + sum;
    Regroup(h, o, c, f, l, trailer, sum);
  }

  lemma Regroup(h: Bytes, o: Bytes, c: Bytes, f: Bytes, l: Bytes, t: Bytes, s: Bytes)
    ensures h + o + c + f + l + t + s == h + o + (c + f + l + (t + s))
    ensures h + o + c + f + l + t + s == (h + o + c) + f + (l + (t + s))
    ensures h + o + c + f + l + t + s == (h + o + c + f) + l + (t + s)
  {
  }

  lemma FanIsRead(es: seq<IdxEntry>, rest: Bytes, b: nat)
    requires NoEmptyId(es) && |es| < U32 && b < 256
    ensures FanAt(Head(es) + rest, b) == CountUpTo(es, b)
  {
    var front := MAGIC + BigEndian(2, 4);
    FanRow(es, 256, b);
    RowInside(front, FanTable(es, 256), rest, 4, b);
    assert Head(es) + rest == front + FanTable(es, 256) + rest;
    Widths();
    BigEndianRoundTrip(CountUpTo(es, b), 4);
  }

  lemma HeadIsRead(es: seq<IdxEntry>, rest: Bytes)
    requires NoEmptyId(es)
    ensures (Head(es) + rest)[..4] == MAGIC && FromBigEndian((Head(es) + rest)[4..8]) == 2
  {
    Widths();
    BigEndianRoundTrip(2, 4);
    hide BigEndian, FanTable, FromBigEndian;
    assert (Head(es) + rest)[4..8] == BigEndian(2, 4);
  }

  // ---- reading back ----

  /** The index reads every entry as it was written. */
  ghost predicate Holds(idx: PackIndex, es: seq<IdxEntry>)
    requires idx.Valid()
  {
    && idx.len == |es|
    && (forall k :: 0 <= k < |es| ==> idx.OidAt(k) == es[k].oid)
    && (forall k :: 0 <= k < |es| ==> idx.OffsetAt(k) == Offset.At(es[k].offset))
  }

  lemma FanOfImage(es: seq<IdxEntry>, rest: Bytes)
    requires NoEmptyId(es) && |es| < U32
    ensures FanIsMonotonic(Head(es) + rest) && FanAt(Head(es) + rest, 255) == |es|
  {
    var d := Head(es) + rest;
    forall a, b | 0 <= a < b < 256
      ensures FanAt(d, a) <= FanAt(d, b)
    {
      FanIsRead(es, rest, a);
      FanIsRead(es, rest, b);
      CountGrows(es, a, b);
    }
    FanIsRead(es, rest, 255);
    CountOfAll(es);
  }

  /** What the parser looks at in the image. */
  lemma ImageParts(es: seq<IdxEntry>, algo: HashAlgo, trailer: Bytes, sum: Bytes)
    requires WithinLimits(es, RawLen(algo)) && |trailer| == |sum| == RawLen(algo)
    ensures NoEmptyId(es)
    ensures var d := Body(es, trailer) + sum;
            && |d| == OIDS_AT + RawLen(algo) * |es| + 8 * |es| + 8 * LargeCount(es) + 2 * RawLen(algo)
            && d[..4] == MAGIC && FromBigEndian(d[4..8]) == 2 && FanIsMonotonic(d) && FanAt(d, 255) == |es|
  {
    IdsAreNotEmpty(es, algo);
    LargeStart(es, algo);
    hide Head, OidTable, CrcTable, OffsetTable, Body, FanAt, FanIsMonotonic, FromBigEndian, AllValid, LargeCount;
    var rest := OidTable(es) + (CrcTable(es) + OffsetTable(es) + LargeTable(es) + (trailer + sum));
    Parts(es, trailer, sum);
    BehindHead(es, trailer, sum);
    HeadIsRead(es, rest);
    FanOfImage(es, rest);
  }

  lemma ImageIsParsed(es: seq<IdxEntry>, algo: HashAlgo, trailer: Bytes, sum: Bytes) returns (idx: PackIndex)
    requires WithinLimits(es, RawLen(algo)) && |trailer| == |sum| == RawLen(algo)
    ensures NoEmptyId(es) && Parsed(Body(es, trailer) + sum, algo) == Index(idx)
    ensures idx.Valid() && idx.file == Body(es, trailer) + sum && idx.algo == algo && idx.len == |es|
    ensures idx.offsetsAt == OIDS_AT + RawLen(algo) * |es| + 4 * |es| && idx.largeCount == LargeCount(es)
  {
    hide Body, FanAt, FanIsMonotonic, FromBigEndian, AllValid, LargeCount;
    ImageParts(es, algo, trailer, sum);
    idx := Parsed(Body(es, trailer) + sum, algo).index;
  }

  lemma OidIsRead(es: seq<IdxEntry>, algo: HashAlgo, trailer: Bytes, sum: Bytes, idx: PackIndex, k: nat)
    requires AllValid(es, RawLen(algo)) && NoEmptyId(es) && k < |es|
    requires idx.Valid() && idx.algo == algo && idx.len == |es| && idx.file == Body(es, trailer) + sum
    ensures idx.OidAt(k) == es[k].oid
  {
    OidRow(es, RawLen(algo), k);
    Parts(es, trailer, sum);
    hide OidTable, CrcTable, OffsetTable, LargeTable, Body, Row, Head;
    RowInside(Head(es), OidTable(es), CrcTable(es) + OffsetTable(es) + LargeTable(es) + (trailer + sum), RawLen(algo), k);
  }

  lemma WordIsRead(es: seq<IdxEntry>, algo: HashAlgo, trailer: Bytes, sum: Bytes, at: nat, k: nat)
    requires WithinLimits(es, RawLen(algo)) && NoEmptyId(es) && k < |es|
    requires at == OIDS_AT + RawLen(algo) * |es| + 4 * |es|
    ensures var d := Body(es, trailer) + sum;
            at + 4 * k + 4 <= |d| && FromBigEndian(Row(d, at, 4, k)) == OffsetWord(es[..k], es[k])
  {
    hide OidTable, CrcTable, OffsetTable, LargeTable, Row, Head, OffsetWord, FromBigEndian, AllValid, LargeCount, Body;
    WordInTable(es, k);
    WordStart(es, algo);
    Parts(es, trailer, sum);
    RowInside(Head(es) + OidTable(es) + CrcTable(es), OffsetTable(es), LargeTable(es) + (trailer + sum), 4, k);
  }

  lemma WordInTable(es: seq<IdxEntry>, k: nat)
    requires LargeCount(es) < LARGE && k < |es|
    ensures FromBigEndian(Row(OffsetTable(es), 0, 4, k)) == OffsetWord(es[..k], es[k])
  {
    OffsetRow(es, k);
    WordFits(es, k);
    hide BigEndian, FromBigEndian, OffsetTable, OffsetWord;
    Widths();
    BigEndianRoundTrip(OffsetWord(es[..k], es[k]), 4);
  }

  lemma WordStart(es: seq<IdxEntry>, algo: HashAlgo)
    requires AllValid(es, RawLen(algo)) && NoEmptyId(es)
    ensures |Head(es) + OidTable(es) + CrcTable(es)| == OIDS_AT + RawLen(algo) * |es| + 4 * |es|
  {
    OidTableLength(es, RawLen(algo));
  }

  lemma WordFits(es: seq<IdxEntry>, k: nat)
    requires LargeCount(es) < LARGE && k < |es|
    ensures OffsetWord(es[..k], es[k]) < U32
    ensures es[k].offset >= LARGE ==> LargeCount(es[..k]) < LargeCount(es)
  {
    if es[k].offset >= LARGE {
      LargeRow(es, k);
    }
  }

  lemma LargeIsRead(es: seq<IdxEntry>, algo: HashAlgo, trailer: Bytes, sum: Bytes, at: nat, k: nat)
    requires WithinLimits(es, RawLen(algo)) && NoEmptyId(es) && k < |es| && es[k].offset >= LARGE
    requires at == OIDS_AT + RawLen(algo) * |es| + 8 * |es|
    ensures var d := Body(es, trailer) + sum;
            var j := LargeCount(es[..k]);
            j < LargeCount(es) && at + 8 * j + 8 <= |d| && FromBigEndian(Row(d, at, 8, j)) == es[k].offset
  {
    hide OidTable, CrcTable, OffsetTable, LargeTable, Row, Head, FromBigEndian, LargeCount, Body;
    assert es[k].Valid(RawLen(algo));
    LargeInTable(es, k);
    LargeStart(es, algo);
    Parts(es, trailer, sum);
    RowInside(Head(es) + OidTable(es) + CrcTable(es) + OffsetTable(es), LargeTable(es), trailer + sum, 8, LargeCount(es[..k]));
  }

  lemma LargeInTable(es: seq<IdxEntry>, k: nat)
    requires k < |es| && LARGE <= es[k].offset < 0x1_0000_0000_0000_0000
    ensures LargeCount(es[..k]) < LargeCount(es)
    ensures FromBigEndian(Row(LargeTable(es), 0, 8, LargeCount(es[..k]))) == es[k].offset
  {
    LargeRow(es, k);
    hide BigEndian, FromBigEndian, LargeTable, LargeCount;
    Widths();
    BigEndianRoundTrip(es[k].offset, 8);
  }

  lemma LargeStart(es: seq<IdxEntry>, algo: HashAlgo)
    requires AllValid(es, RawLen(algo)) && NoEmptyId(es)
    ensures |Head(es) + OidTable(es) + CrcTable(es) + OffsetTable(es)| == OIDS_AT + RawLen(algo) * |es| + 8 * |es|
  {
    OidTableLength(es, RawLen(algo));
  }

  /** Reading back what was written gives every id and every offset, small or large. */
  lemma ImageIsRead(es: seq<IdxEntry>, algo: HashAlgo, trailer: Bytes, sum: Bytes) returns (idx: PackIndex)
    requires WithinLimits(es, RawLen(algo)) && |trailer| == |sum| == RawLen(algo)
    ensures NoEmptyId(es) && Parsed(Body(es, trailer) + sum, algo) == Index(idx)
    ensures idx.Valid() && idx.file == Body(es, trailer) + sum && idx.algo == algo && Holds(idx, es)
  {
    idx := ImageIsParsed(es, algo, trailer, sum);
    hide Parsed, Body, Head, FromBigEndian, Row, FanIsMonotonic, FanAt;
    forall k | 0 <= k < |es|
      ensures idx.OidAt(k) == es[k].oid
    {
      OidIsRead(es, algo, trailer, sum, idx, k);
    }
    forall k | 0 <= k < |es|
      ensures idx.OffsetAt(k) == Offset.At(es[k].offset)
    {
      OffsetIsRead(es, algo, trailer, sum, idx, k);
    }
  }

  lemma OffsetIsRead(es: seq<IdxEntry>, algo: HashAlgo, trailer: Bytes, sum: Bytes, idx: PackIndex, k: nat)
    requires WithinLimits(es, RawLen(algo)) && NoEmptyId(es) && k < |es|
    requires idx.Valid() && idx.algo == algo && idx.len == |es| && idx.file == Body(es, trailer) + sum
    requires idx.largeCount == LargeCount(es)
    ensures idx.OffsetAt(k) == Offset.At(es[k].offset)
  {
    hide Body, FromBigEndian, Row, FanIsMonotonic, FanAt, LargeCount;
    WordIsRead(es, algo, trailer, sum, idx.offsetsAt, k);
    if es[k].offset >= LARGE {
      LargeIsRead(es, algo, trailer, sum, idx.largeAt, k);
    }
  }

  /** Written from sorted entries, the index is consistent. */
  lemma ImageIsConsistent(es: seq<IdxEntry>, algo: HashAlgo, trailer: Bytes, sum: Bytes, idx: PackIndex)
    requires Sorted(es) && NoEmptyId(es) && |es| < U32
    requires idx.Valid() && Holds(idx, es) && idx.file == Body(es, trailer) + sum
    ensures Consistent(idx)
  {
    forall i, b | 0 <= i < idx.len && 0 <= b < 256
      ensures idx.OidAt(i)[0] as int <= b <==> i < FanAt(idx.file, b)
    {
      FanSplits(es, b, i);
      Parts(es, trailer, sum);
      FanIsRead(es, OidTable(es) + (CrcTable(es) + OffsetTable(es) + LargeTable(es) + (trailer + sum)), b);
      BehindHead(es, trailer, sum);
    }
  }

  lemma BehindHead(es: seq<IdxEntry>, trailer: Bytes, sum: Bytes)
    requires NoEmptyId(es)
    ensures Body(es, trailer) + sum ==
            Head(es) + (OidTable(es) + (CrcTable(es) + OffsetTable(es) + LargeTable(es) + (trailer + sum)))
  {
    hide Head, OidTable, CrcTable, OffsetTable, LargeTable;
  }

  // ---- the writer ----

  /** Puts an entry where its id belongs. */
  method InsertById(es: seq<IdxEntry>, e: IdxEntry) returns (r: seq<IdxEntry>)
    requires Sorted(es)
    ensures Sorted(r) && multiset(r) == multiset(es) + multiset{e}
  {
    var i := |es|;
    while i > 0 && BytesLess(e.oid, es[i - 1].oid)
      invariant 0 <= i <= |es|
      invariant forall j :: i <= j < |es| ==> BytesLess(e.oid, es[j].oid)
    {
      i := i - 1;
    }
    r := es[..i] + [e] + es[i..];
    assert es == es[..i] + es[i..];
    InsertedIsSorted(es, e, i);
  }

  lemma InsertedIsSorted(es: seq<IdxEntry>, e: IdxEntry, i: nat)
    requires Sorted(es) && i <= |es|
    requires forall j :: i <= j < |es| ==> BytesLess(e.oid, es[j].oid)
    requires i > 0 ==> !BytesLess(e.oid, es[i - 1].oid)
    ensures Sorted(es[..i] + [e] + es[i..])
  {
    var r := es[..i] + [e] + es[i..];
    forall j, k | 0 <= j < k < |r|
      ensures !BytesLess(r[k].oid, r[j].oid)
    {
      assert r[j] == if j < i then es[j] else if j == i then e else es[j - 1];
      assert r[k] == if k < i then es[k] else if k == i then e else es[k - 1];
      if k == i {
        NotLessBefore(es, e, i, j);
      } else if j == i {
        NotBothLess(e.oid, es[k - 1].oid);
      }
    }
  }

  lemma NotBothLess(a: Bytes, b: Bytes)
    requires BytesLess(a, b)
    ensures !BytesLess(b, a)
  {
    if BytesLess(b, a) {
      BytesLessIsTransitive(a, b, a);
      BytesLessIsStrict(a);
    }
  }

  lemma NotLessBefore(es: seq<IdxEntry>, e: IdxEntry, i: nat, j: nat)
    requires Sorted(es) && j < i <= |es| && !BytesLess(e.oid, es[i - 1].oid)
    ensures !BytesLess(e.oid, es[j].oid)
  {
    if BytesLess(e.oid, es[j].oid) && j < i - 1 {
      if es[j].oid != es[i - 1].oid {
        BytesLessIsTotal(es[i - 1].oid, es[j].oid);
        BytesLessIsTransitive(e.oid, es[j].oid, es[i - 1].oid);
      }
    }
  }

  method SortById(es: seq<IdxEntry>) returns (r: seq<IdxEntry>)
    ensures Sorted(r) && multiset(r) == multiset(es)
  {
    r := [];
    for i := 0 to |es|
      invariant Sorted(r) && multiset(r) == multiset(es[..i])
    {
      r := InsertById(r, es[i]);
      assert es[..i + 1] == es[..i] + [es[i]];
    }
    assert es[..|es|] == es;
  }

  /** How many ids have the first byte `b`. */
  function CountOf(es: seq<IdxEntry>, b: int): (n: nat)
    requires forall k :: 0 <= k < |es| ==> es[k].oid != []
  {
    if es == [] then 0
    else CountOf(es[..|es| - 1], b) + if es[|es| - 1].oid[0] as int == b then 1 else 0
  }

  lemma {:induction false} CountsAdd(es: seq<IdxEntry>, b: int)
    requires forall k :: 0 <= k < |es| ==> es[k].oid != []
    ensures CountUpTo(es, b) == CountUpTo(es, b - 1) + CountOf(es, b)
    decreases |es|
  {
    if es != [] {
      CountsAdd(es[..|es| - 1], b);
    }
  }

  lemma {:induction false} NoneBelowZero(es: seq<IdxEntry>)
    requires forall k :: 0 <= k < |es| ==> es[k].oid != []
    ensures CountUpTo(es, -1) == 0
    decreases |es|
  {
    if es != [] {
      NoneBelowZero(es[..|es| - 1]);
    }
  }

  lemma CountsSnoc(es: seq<IdxEntry>, i: nat)
    requires i < |es| && NoEmptyId(es)
    ensures forall b :: CountOf(es[..i + 1], b) == CountOf(es[..i], b) + if es[i].oid[0] as int == b then 1 else 0
  {
    assert es[..i + 1][..i] == es[..i];
  }

  method AppendFanOut(es: seq<IdxEntry>, start: Bytes) returns (out: Bytes)
    requires NoEmptyId(es)
    ensures out == start + FanTable(es, 256)
  {
    var fanout := new nat[256](i => 0);
    for i := 0 to |es|
      invariant forall b :: 0 <= b < 256 ==> fanout[b] == CountOf(es[..i], b)
    {
      var first := es[i].oid[0] as int;
      CountsSnoc(es, i);
      fanout[first] := fanout[first] + 1;
    }
    assert es[..|es|] == es;
    var cumulative: nat := 0;
    NoneBelowZero(es);
    out := start;
    assert start + [] == start;
    for b := 0 to 256
      invariant forall k :: 0 <= k < 256 ==> fanout[k] == CountOf(es, k)
      invariant cumulative == CountUpTo(es, b - 1) && out == start + FanTable(es, b)
    {
      CountsAdd(es, b);
      cumulative := cumulative + fanout[b];
      assert start + FanTable(es, b) + BigEndian(cumulative, 4) == start + (FanTable(es, b) + BigEndian(cumulative, 4));
      out := out + BigEndian(cumulative, 4);
    }
  }

  method AppendOids(es: seq<IdxEntry>, start: Bytes) returns (out: Bytes)
    ensures out == start + OidTable(es)
  {
    out := start;
    for i := 0 to |es|
      invariant out == start + OidTable(es[..i])
    {
      assert es[..i + 1][..i] == es[..i];
      out := out + es[i].oid;
    }
    assert es[..|es|] == es;
  }

  method AppendCrcs(es: seq<IdxEntry>, start: Bytes) returns (out: Bytes)
    ensures out == start + CrcTable(es)
  {
    out := start;
    for i := 0 to |es|
      invariant out == start + CrcTable(es[..i])
    {
      assert es[..i + 1][..i] == es[..i];
      out := out + BigEndian(es[i].crc, 4);
    }
    assert es[..|es|] == es;
  }

  /** Appends the offset words and collects the large offsets. */
  method AppendOffsets(es: seq<IdxEntry>, start: Bytes) returns (out: Bytes, large: seq<nat>)
    ensures out == start + OffsetTable(es) && EightBytes(large) == LargeTable(es)
  {
    out, large := start, [];
    hide BigEndian;
    for i := 0 to |es|
      invariant out == start + OffsetTable(es[..i])
      invariant |large| == LargeCount(es[..i]) && EightBytes(large) == LargeTable(es[..i])
    {
      assert es[..i + 1][..i] == es[..i];
      if es[i].offset < LARGE {
        out := out + BigEndian(es[i].offset, 4);
      } else {
        out := out + BigEndian(LARGE + |large|, 4);
        assert (large + [es[i].offset])[..|large|] == large;
        large := large + [es[i].offset];
      }
    }
    assert es[..|es|] == es;
  }

  ghost function EightBytes(large: seq<nat>): Bytes {
    if large == [] then [] else EightBytes(large[..|large| - 1]) + BigEndian(large[|large| - 1], 8)
  }

  method AppendLarge(large: seq<nat>, start: Bytes) returns (out: Bytes)
    ensures out == start + EightBytes(large)
  {
    out := start;
    for i := 0 to |large|
      invariant out == start + EightBytes(large[..i])
    {
      assert large[..i + 1][..i] == large[..i];
      out := out + BigEndian(large[i], 8);
    }
    assert large[..|large|] == large;
  }

  /** Builds the index of the entries, and leaves them in the order of their ids. */
  method BuildIdx(algo: HashAlgo, entries: seq<IdxEntry>, trailer: Bytes, hash: Bytes -> Bytes)
    returns (out: Bytes, sorted: seq<IdxEntry>)
    requires AllValid(entries, RawLen(algo))
    ensures Sorted(sorted) && multiset(sorted) == multiset(entries)
    ensures NoEmptyId(sorted) && out == Body(sorted, trailer) + hash(Body(sorted, trailer))
  {
    var es := SortById(entries);
    SameValid(es, entries, RawLen(algo));
    IdsAreNotEmpty(es, algo);
    sorted := es;
    hide FanTable, OidTable, CrcTable, OffsetTable, LargeTable, EightBytes, Sorted;
    out := MAGIC + BigEndian(2, 4);
    out := AppendFanOut(es, out);
    out := AppendOids(es, out);
    out := AppendCrcs(es, out);
    var large;
    out, large := AppendOffsets(es, out);
    out := AppendLarge(large, out);
    out := out + trailer;
    out := out + hash(out);
  }

  lemma SameValid(es: seq<IdxEntry>, entries: seq<IdxEntry>, raw: nat)
    requires multiset(es) == multiset(entries) && AllValid(entries, raw)
    ensures AllValid(es, raw)
  {
    forall k | 0 <= k < |es|
      ensures es[k].Valid(raw)
    {
      assert es[k] in multiset(es);
      assert es[k] in entries;
    }
  }

  // ---- the round trip ----

  lemma {:induction false} LargeCountWithout(es: seq<IdxEntry>, k: nat)
    requires k < |es|
    ensures LargeCount(es) == LargeCount(es[..k] + es[k + 1..]) + if es[k].offset < LARGE then 0 else 1
    decreases |es|
  {
    var rest, last := es[..|es| - 1], es[|es| - 1];
    hide LargeCount;
    LargeCountSnoc(rest, last);
    assert es == rest + [last];
    if k < |rest| {
      LargeCountWithout(rest, k);
      LargeCountSnoc(rest[..k] + rest[k + 1..], last);
      assert es[..k] + es[k + 1..] == rest[..k] + rest[k + 1..] + [last];
    } else {
      assert es[..k] + es[k + 1..] == rest;
    }
  }

  lemma LargeCountSnoc(es: seq<IdxEntry>, e: IdxEntry)
    ensures LargeCount(es + [e]) == LargeCount(es) + if e.offset < LARGE then 0 else 1
  {
    assert (es + [e])[..|es|] == es;
  }

  lemma RemoveBoth(es: seq<IdxEntry>, other: seq<IdxEntry>, k: nat)
    requires es != [] && k < |other| && other[k] == es[|es| - 1] && multiset(es) == multiset(other)
    ensures multiset(es[..|es| - 1]) == multiset(other[..k] + other[k + 1..])
  {
    var rest, a, b := es[..|es| - 1], other[..k], other[k + 1..];
    assert es == rest + [es[|es| - 1]];
    assert other == a + [other[k]] + b;
    assert multiset(es) == multiset(rest) + multiset{other[k]};
    assert multiset(other) == multiset(a) + multiset{other[k]} + multiset(b);
    assert multiset(rest) == multiset(es) - multiset{other[k]} == multiset(a) + multiset(b);
  }

  lemma {:induction false} LargeCountOfSame(es: seq<IdxEntry>, other: seq<IdxEntry>)
    requires multiset(es) == multiset(other)
    ensures LargeCount(es) == LargeCount(other)
    decreases |es|
  {
    if es == [] {
      assert |other| == |multiset(other)| == 0;
    } else {
      var rest, last := es[..|es| - 1], es[|es| - 1];
      assert es == rest + [last];
      assert last in multiset(other);
      var k :| 0 <= k < |other| && other[k] == last;
      RemoveBoth(es, other, k);
      LargeCountWithout(other, k);
      LargeCountOfSame(rest, other[..k] + other[k + 1..]);
    }
  }

  /** Some entry has the id, and the offset. */
  predicate Recorded(entries: seq<IdxEntry>, oid: Bytes, offset: nat) {
    exists k :: 0 <= k < |entries| && entries[k].oid == oid && entries[k].offset == offset
  }

  /** Some entry of the index has the id. */
  predicate HasId(idx: PackIndex, oid: Bytes)
    requires idx.Valid()
  {
    exists i :: 0 <= i < idx.len && idx.OidAt(i) == oid
  }

  /** For all entries within the limits of the format: the index built from them is read back as
      a consistent one, so that lookup finds exactly the ids that were written, and at every id
      an offset that was recorded for it. */
  lemma BuiltIsReadBack(entries: seq<IdxEntry>, sorted: seq<IdxEntry>, algo: HashAlgo, trailer: Bytes, sum: Bytes)
    returns (idx: PackIndex)
    requires WithinLimits(entries, RawLen(algo)) && |trailer| == |sum| == RawLen(algo)
    requires Sorted(sorted) && multiset(sorted) == multiset(entries)
    ensures NoEmptyId(sorted) && Parsed(Body(sorted, trailer) + sum, algo) == Index(idx)
    ensures idx.Valid() && Consistent(idx) && idx.algo == algo
    ensures forall k :: 0 <= k < |entries| ==> HasId(idx, entries[k].oid)
    ensures forall i :: 0 <= i < idx.len ==> idx.OffsetAt(i).At? && Recorded(entries, idx.OidAt(i), idx.OffsetAt(i).offset)
  {
    SameValid(sorted, entries, RawLen(algo));
    LargeCountOfSame(sorted, entries);
    assert |sorted| == |multiset(sorted)| == |multiset(entries)| == |entries|;
    idx := ImageIsRead(sorted, algo, trailer, sum);
    ImageIsConsistent(sorted, algo, trailer, sum, idx);
    hide Body, Consistent, Parsed, Sorted, AllValid, Holds, LargeCount;
    IdsAreFound(entries, sorted, idx);
    OffsetsAreRecorded(entries, sorted, idx);
  }

  lemma IdsAreFound(entries: seq<IdxEntry>, sorted: seq<IdxEntry>, idx: PackIndex)
    requires multiset(sorted) == multiset(entries) && idx.Valid() && Holds(idx, sorted)
    ensures forall k :: 0 <= k < |entries| ==> HasId(idx, entries[k].oid)
  {
    forall k | 0 <= k < |entries|
      ensures HasId(idx, entries[k].oid)
    {
      assert entries[k] in multiset(sorted);
      var i :| 0 <= i < |sorted| && sorted[i] == entries[k];
      assert idx.OidAt(i) == sorted[i].oid;
    }
  }

  lemma OffsetsAreRecorded(entries: seq<IdxEntry>, sorted: seq<IdxEntry>, idx: PackIndex)
    requires multiset(sorted) == multiset(entries) && idx.Valid() && Holds(idx, sorted)
    ensures forall i :: 0 <= i < idx.len ==> idx.OffsetAt(i).At? && Recorded(entries, idx.OidAt(i), idx.OffsetAt(i).offset)
  {
    forall i | 0 <= i < idx.len
      ensures idx.OffsetAt(i).At? && Recorded(entries, idx.OidAt(i), idx.OffsetAt(i).offset)
    {
      assert idx.OidAt(i) == sorted[i].oid && idx.OffsetAt(i) == Offset.At(sorted[i].offset);
      assert sorted[i] in multiset(entries);
      var k :| 0 <= k < |entries| && entries[k] == sorted[i];
    }
  }
}
