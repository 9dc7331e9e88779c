/** The pack index, version 2 (crates/alt-git-pack/src/write.rs, index_pack.rs, idx.rs; git's
    gitformat-pack, section "Version 2 pack-*.idx files support packs larger than 4 GiB, and
    have some other reorganizations").

    A fan-out of 256 counts, the sorted ids, their checksums and 4-byte offsets, of which those
    from 2^31 on point into a table of 8-byte offsets. */
module PackIndex {
  import opened ByteOrder
  import opened Endian
  import opened Objects
  import opened Octets

  const MAGIC: Bytes := [255, 116, 79, 99]

  const FANOUT_AT := 8

  const OIDS_AT := 1032

  const LARGE: nat := 0x8000_0000

  const U32: nat := 0x1_0000_0000

  datatype IdxEntry = IdxEntry(oid: Bytes, offset: nat, crc: nat) {
    predicate Valid(raw: nat) {
      |oid| == raw && offset < 0x1_0000_0000_0000_0000 && crc < U32
    }
  }

  ghost predicate AllValid(es: seq<IdxEntry>, raw: nat) {
    forall k :: 0 <= k < |es| ==> es[k].Valid(raw)
  }

  predicate Sorted(es: seq<IdxEntry>) {
    forall i, j :: 0 <= i < j < |es| ==> !BytesLess(es[j].oid, es[i].oid)
  }

  // ---- what is written ----

  /** How many ids have a first byte of at most `b`. */
  function CountUpTo(es: seq<IdxEntry>, b: int): (n: nat)
    requires forall k :: 0 <= k < |es| ==> es[k].oid != []
    ensures n <= |es|
  {
    if es == [] then 0
    else CountUpTo(es[..|es| - 1], b) + if es[|es| - 1].oid[0] as int <= b then 1 else 0
  }

  function LargeCount(es: seq<IdxEntry>): (n: nat)
    ensures n <= |es|
  {
    if es == [] then 0 else LargeCount(es[..|es| - 1]) + if es[|es| - 1].offset < LARGE then 0 else 1
  }

  /** The offset word of `e` behind the entries `before`. */
  function OffsetWord(before: seq<IdxEntry>, e: IdxEntry): nat {
    if e.offset < LARGE then e.offset else LARGE + LargeCount(before)
  }

  ghost function FanTable(es: seq<IdxEntry>, n: nat): (t: Bytes)
    requires forall k :: 0 <= k < |es| ==> es[k].oid != []
    ensures |t| == 4 * n
  {
    if n == 0 then [] else FanTable(es, n - 1) + BigEndian(CountUpTo(es, n - 1), 4)
  }

  ghost function OidTable(es: seq<IdxEntry>): Bytes {
    if es == [] then [] else OidTable(es[..|es| - 1]) + es[|es| - 1].oid
  }

  ghost function CrcTable(es: seq<IdxEntry>): (t: Bytes)
    ensures |t| == 4 * |es|
  {
    if es == [] then [] else CrcTable(es[..|es| - 1]) + BigEndian(es[|es| - 1].crc, 4)
  }

  ghost function OffsetTable(es: seq<IdxEntry>): (t: Bytes)
    ensures |t| == 4 * |es|
  {
    if es == [] then []
    else OffsetTable(es[..|es| - 1]) + BigEndian(OffsetWord(es[..|es| - 1], es[|es| - 1]), 4)
  }

  ghost function LargeTable(es: seq<IdxEntry>): (t: Bytes)
    ensures |t| == 8 * LargeCount(es)
  {
    if es == [] then []
    else LargeTable(es[..|es| - 1]) + if es[|es| - 1].offset < LARGE then [] else BigEndian(es[|es| - 1].offset, 8)
  }

  // ---- the tables hold what was written ----

  /** Row `k` of a table with rows of `w` bytes. */
  function Row(t: Bytes, at: nat, w: nat, k: nat): Bytes
    requires at + w * k + w <= |t|
  {
    t[at + w * k..at + w * k + w]
  }

  lemma {:induction false} Times(w: nat, k: nat, n: nat)
    requires k < n
    ensures w * k + w <= w * n
    decreases n
  {
    assert w * n == w * (n - 1) + w;
    if k < n - 1 {
      Times(w, k, n - 1);
    }
  }

  lemma RowOfFront(t: Bytes, more: Bytes, w: nat, k: nat)
    requires w * k + w <= |t|
    ensures Row(t + more, 0, w, k) == Row(t, 0, w, k)
  {
    var a := w * k;
    assert (t + more)[a..a + w] == t[a..a + w];
  }

  lemma {:induction false} OidTableLength(es: seq<IdxEntry>, raw: nat)
    requires AllValid(es, raw)
    ensures |OidTable(es)| == raw * |es|
    decreases |es|
  {
    if es != [] {
      OidTableLength(es[..|es| - 1], raw);
      assert raw * |es| == raw * (|es| - 1) + raw;
    }
  }

  lemma {:induction false} OidRow(es: seq<IdxEntry>, raw: nat, k: nat)
    requires AllValid(es, raw) && k < |es|
    ensures raw * k + raw <= |OidTable(es)| && Row(OidTable(es), 0, raw, k) == es[k].oid
    decreases |es|
  {
    var rest := es[..|es| - 1];
    OidTableLength(es, raw);
    OidTableLength(rest, raw);
    Times(raw, k, |es|);
    if k < |es| - 1 {
      OidRow(rest, raw, k);
      RowOfFront(OidTable(rest), es[|es| - 1].oid, raw, k);
    } else {
      assert OidTable(es)[raw * k..raw * k + raw] == es[k].oid;
    }
  }

  lemma {:induction false} FanRow(es: seq<IdxEntry>, n: nat, b: nat)
    requires forall k :: 0 <= k < |es| ==> es[k].oid != []
    requires b < n
    ensures Row(FanTable(es, n), 0, 4, b) == BigEndian(CountUpTo(es, b), 4)
    decreases n
  {
    if b < n - 1 {
      FanRow(es, n - 1, b);
      assert Row(FanTable(es, n), 0, 4, b) == Row(FanTable(es, n - 1), 0, 4, b);
    } else {
      assert Row(FanTable(es, n), 0, 4, b) == FanTable(es, n)[4 * (n - 1)..];
    }
  }

  lemma {:induction false} OffsetRow(es: seq<IdxEntry>, k: nat)
    requires k < |es|
    ensures Row(OffsetTable(es), 0, 4, k) == BigEndian(OffsetWord(es[..k], es[k]), 4)
    decreases |es|
  {
    var rest := es[..|es| - 1];
    if k < |es| - 1 {
      OffsetRow(rest, k);
      assert rest[..k] == es[..k];
      assert Row(OffsetTable(es), 0, 4, k) == Row(OffsetTable(rest), 0, 4, k);
    }
  }

  lemma {:induction false} LargeRow(es: seq<IdxEntry>, k: nat)
    requires k < |es| && es[k].offset >= LARGE
    ensures LargeCount(es[..k]) < LargeCount(es)
    ensures Row(LargeTable(es), 0, 8, LargeCount(es[..k])) == BigEndian(es[k].offset, 8)
    decreases |es|
  {
    var rest := es[..|es| - 1];
    if k < |es| - 1 {
      LargeRow(rest, k);
      assert rest[..k] == es[..k];
      assert Row(LargeTable(es), 0, 8, LargeCount(es[..k])) == Row(LargeTable(rest), 0, 8, LargeCount(es[..k]));
    }
  }

  // ---- sorted ids and the fan-out ----

  /** Among sorted ids, those with a first byte of at most `b` come first. */
  lemma {:induction false} FanSplits(es: seq<IdxEntry>, b: int, k: nat)
    requires Sorted(es) && (forall i :: 0 <= i < |es| ==> es[i].oid != []) && k < |es|
    ensures es[k].oid[0] as int <= b <==> k < CountUpTo(es, b)
    decreases |es|
  {
    var rest, last := es[..|es| - 1], es[|es| - 1];
    if last.oid[0] as int <= b {
      AllUpTo(es, b);
    } else if k < |es| - 1 {
      FanSplits(rest, b, k);
    }
  }

  lemma {:induction false} AllUpTo(es: seq<IdxEntry>, b: int)
    requires Sorted(es) && (forall i :: 0 <= i < |es| ==> es[i].oid != [])
    requires es != [] ==> es[|es| - 1].oid[0] as int <= b
    ensures CountUpTo(es, b) == |es| && forall k :: 0 <= k < |es| ==> es[k].oid[0] as int <= b
    decreases |es|
  {
    if |es| > 1 {
      assert !BytesLess(es[|es| - 1].oid, es[|es| - 2].oid);
      AllUpTo(es[..|es| - 1], b);
    }
  }

  lemma {:induction false} CountGrows(es: seq<IdxEntry>, a: int, b: int)
    requires (forall i :: 0 <= i < |es| ==> es[i].oid != []) && a <= b
    ensures CountUpTo(es, a) <= CountUpTo(es, b)
    decreases |es|
  {
    if es != [] {
      CountGrows(es[..|es| - 1], a, b);
    }
  }

  lemma {:induction false} CountOfAll(es: seq<IdxEntry>)
    requires forall i :: 0 <= i < |es| ==> es[i].oid != []
    ensures CountUpTo(es, 255) == |es|
    decreases |es|
  {
    if es != [] {
      CountOfAll(es[..|es| - 1]);
    }
  }

  // ---- the reader ----

  datatype IdxError = BadMagic | UnsupportedVersion | NonMonotonicFanOut | Truncated

  datatype PackIndex = PackIndex(file: Bytes, algo: HashAlgo, len: nat, offsetsAt: nat, largeAt: nat, largeCount: nat) {
    /** The tables lie within the file. */
    ghost predicate Valid() {
      && FanIsMonotonic(file) && len == FanAt(file, 255)
      && offsetsAt == OIDS_AT + RawLen(algo) * len + 4 * len
      && largeAt == offsetsAt + 4 * len
      && largeAt + 8 * largeCount <= |file|
    }

    /** The id of entry `i`. */
    function OidAt(i: nat): Bytes
      requires Valid() && i < len
    {
      OidInFile(RawLen(algo), len, i);
      Row(file, OIDS_AT, RawLen(algo), i)
    }

    /** The offset of entry `i` in the pack, unless it points out of the table of large ones. */
    function OffsetAt(i: nat): Offset
      requires Valid() && i < len
    {
      var word := FromBigEndian(Row(file, offsetsAt, 4, i));
      if word < LARGE then At(word)
      else if word - LARGE >= largeCount then OutOfRange
      else At(FromBigEndian(Row(file, largeAt, 8, word - LARGE)))
    }

    lemma OidInFile(raw: nat, n: nat, i: nat)
      requires i < n
      ensures raw * i + raw <= raw * n
    {
      Times(raw, i, n);
    }
  }

  datatype Offset = At(offset: nat) | OutOfRange

  datatype ParsedIndex = Index(index: PackIndex) | NoIndex(error: IdxError)

  function FanAt(file: Bytes, b: nat): nat
    requires |file| >= OIDS_AT && b < 256
  {
    FromBigEndian(Row(file, FANOUT_AT, 4, b))
  }

  predicate FanIsMonotonic(file: Bytes) {
    |file| >= OIDS_AT && forall a, b :: 0 <= a < b < 256 ==> FanAt(file, a) <= FanAt(file, b)
  }

  /** What is read from a file. */
  function Parsed(file: Bytes, algo: HashAlgo): ParsedIndex {
    if |file| < OIDS_AT || file[..4] != MAGIC then NoIndex(BadMagic)
    else if FromBigEndian(file[4..8]) != 2 then NoIndex(UnsupportedVersion)
    else if !FanIsMonotonic(file) then NoIndex(NonMonotonicFanOut)
    else
      var raw, n := RawLen(algo), FanAt(file, 255);
      var offsetsAt := OIDS_AT + raw * n + 4 * n;
      var largeAt := offsetsAt + 4 * n;
      if |file| < largeAt + 2 * raw then NoIndex(Truncated)
      else Index(PackIndex(file, algo, n, offsetsAt, largeAt, (|file| - 2 * raw - largeAt) / 8))
  }

  /** Whether no count of the fan-out is less than the one before. */
  method CheckFanOut(file: Bytes) returns (ok: bool)
    requires |file| >= OIDS_AT
    ensures ok == FanIsMonotonic(file)
  {
    hide FanAt;
    var prev: nat := 0;
    for i := 0 to 256
      invariant prev == if i == 0 then 0 else FanAt(file, i - 1)
      invariant forall a, b :: 0 <= a < b < i ==> FanAt(file, a) <= FanAt(file, b)
    {
      var v := FanAt(file, i);
      if v < prev {
        assert FanAt(file, i - 1) > FanAt(file, i);
        return false;
      }
      prev := v;
    }
    ok := true;
  }

  method Parse(file: Bytes, algo: HashAlgo) returns (r: ParsedIndex)
    ensures r == Parsed(file, algo)
    ensures r.Index? ==> r.index.Valid()
  {
    if |file| < FANOUT_AT + 256 * 4 || file[..4] != MAGIC {
      return NoIndex(BadMagic);
    }
    if FromBigEndian(file[4..8]) != 2 {
      return NoIndex(UnsupportedVersion);
    }
    var len := FanAt(file, 255);
    var ok := CheckFanOut(file);
    if !ok {
      return NoIndex(NonMonotonicFanOut);
    }
    hide FromBigEndian, FanAt, FanIsMonotonic;
    var raw := RawLen(algo);
    var offsetsAt := OIDS_AT + len * raw + len * 4;
    var largeAt := offsetsAt + len * 4;
    if |file| < largeAt + 2 * raw {
      return NoIndex(Truncated);
    }
    r := Index(PackIndex(file, algo, len, offsetsAt, largeAt, (|file| - 2 * raw - largeAt) / 8));
  }

  // ---- lookup ----

  /** The ids are sorted and the fan-out counts them. */
  ghost predicate Consistent(idx: PackIndex)
    requires idx.Valid()
  {
    && (forall i, j :: 0 <= i < j < idx.len ==> !BytesLess(idx.OidAt(j), idx.OidAt(i)))
    && (forall i, b :: 0 <= i < idx.len && 0 <= b < 256 ==> (idx.OidAt(i)[0] as int <= b <==> i < FanAt(idx.file, b)))
  }

  /** Where a binary search between `lo` and `hi` comes upon the id, or -1. */
  function Search(idx: PackIndex, oid: Bytes, lo: nat, hi: nat): int
    requires idx.Valid() && hi <= idx.len
    decreases hi - lo
  {
    if lo >= hi then -1
    else
      var mid := lo + (hi - lo) / 2;
      if idx.OidAt(mid) == oid then mid
      else if BytesLess(idx.OidAt(mid), oid) then Search(idx, oid, mid + 1, hi)
      else Search(idx, oid, lo, mid)
  }

  function BucketStart(idx: PackIndex, b: nat): nat
    requires idx.Valid() && b < 256
  {
    if b == 0 then 0 else FanAt(idx.file, b - 1)
  }

  function BucketEnd(idx: PackIndex, b: nat): nat
    requires idx.Valid() && b < 256
  {
    FanAt(idx.file, b)
  }

  lemma BucketEnds(idx: PackIndex, b: nat)
    requires idx.Valid() && b < 256
    ensures FanAt(idx.file, b) <= idx.len
  {
    assert b < 255 ==> FanAt(idx.file, b) <= FanAt(idx.file, 255);
  }

  /** The entry that a lookup comes upon, or -1. */
  function Position(idx: PackIndex, oid: Bytes): int
    requires idx.Valid() && |oid| == RawLen(idx.algo)
  {
    var b := oid[0] as int;
    BucketEnds(idx, b);
    Search(idx, oid, BucketStart(idx, b), FanAt(idx.file, b))
  }

  /** Whatever the file, what is found is the id asked for; in a consistent index it is found if
      it is there. */
  lemma {:induction false} SearchIsRight(idx: PackIndex, oid: Bytes, lo: nat, hi: nat)
    requires idx.Valid() && hi <= idx.len
    ensures var r := Search(idx, oid, lo, hi);
            && -1 <= r < idx.len && (r >= 0 ==> idx.OidAt(r) == oid)
            && (r < 0 && Consistent(idx) ==> forall i :: lo <= i < hi ==> idx.OidAt(i) != oid)
    decreases hi - lo
  {
    hide Consistent, BytesLess, FanAt, FanIsMonotonic, Row, FromBigEndian;
    if lo < hi {
      var mid := lo + (hi - lo) / 2;
      if idx.OidAt(mid) != oid {
        if Consistent(idx) {
          HalfRemains(idx, oid, mid);
        }
        if BytesLess(idx.OidAt(mid), oid) {
          SearchIsRight(idx, oid, mid + 1, hi);
        } else {
          SearchIsRight(idx, oid, lo, mid);
        }
      }
    }
  }

  /** Whatever the file, what is found is the id asked for; in a consistent index it is found if
      it is there. */
  ghost predicate Answers(idx: PackIndex, oid: Bytes, found: int)
    requires idx.Valid()
  {
    && -1 <= found < idx.len && (found >= 0 ==> idx.OidAt(found) == oid)
    && (found < 0 && Consistent(idx) ==> forall i :: 0 <= i < idx.len ==> idx.OidAt(i) != oid)
  }

  lemma PositionIsRight(idx: PackIndex, oid: Bytes)
    requires idx.Valid() && |oid| == RawLen(idx.algo)
    ensures Answers(idx, oid, Position(idx, oid))
  {
    var b := oid[0] as int;
    BucketEnds(idx, b);
    SearchIsRight(idx, oid, BucketStart(idx, b), FanAt(idx.file, b));
    hide Consistent, Search;
    if Consistent(idx) {
      BucketHolds(idx, oid);
    }
  }

  /** Searches the bucket of the first byte. */
  method Lookup(idx: PackIndex, oid: Bytes) returns (found: int)
    requires idx.Valid() && |oid| == RawLen(idx.algo)
    ensures found == Position(idx, oid) && Answers(idx, oid, found)
  {
    hide *;
    IdsHaveBytes(idx.algo);
    var bucket: nat := oid[0] as int;
    var lo: nat, hi: nat := BucketStart(idx, bucket), BucketEnd(idx, bucket);
    PositionIs(idx, oid, bucket);
    while lo < hi
      invariant hi <= idx.len && Search(idx, oid, lo, hi) == Position(idx, oid)
      decreases hi - lo
    {
      var mid := lo + (hi - lo) / 2;
      SearchStep(idx, oid, lo, hi, mid);
      var here := idx.OidAt(mid);
      if here == oid {
        return mid;
      }
      if BytesLess(here, oid) {
        lo := mid + 1;
      } else {
        hi := mid;
      }
    }
    NothingSearched(idx, oid, lo, hi);
    found := -1;
  }

  lemma IdsHaveBytes(algo: HashAlgo)
    ensures RawLen(algo) > 0
  {
  }

  lemma PositionIs(idx: PackIndex, oid: Bytes, b: nat)
    requires idx.Valid() && |oid| == RawLen(idx.algo) && b == oid[0] as int
    ensures BucketEnd(idx, b) <= idx.len
    ensures Position(idx, oid) == Search(idx, oid, BucketStart(idx, b), BucketEnd(idx, b))
    ensures Answers(idx, oid, Position(idx, oid))
  {
    BucketEnds(idx, b);
    PositionIsRight(idx, oid);
    hide Search, Answers, FanAt;
  }

  lemma SearchStep(idx: PackIndex, oid: Bytes, lo: nat, hi: nat, mid: nat)
    requires idx.Valid() && lo < hi <= idx.len && mid == lo + (hi - lo) / 2
    ensures Search(idx, oid, lo, hi) == if idx.OidAt(mid) == oid then mid
                                        else if BytesLess(idx.OidAt(mid), oid) then Search(idx, oid, mid + 1, hi)
                                        else Search(idx, oid, lo, mid)
  {
    hide BytesLess, FanIsMonotonic, FanAt, Row;
  }

  lemma NothingSearched(idx: PackIndex, oid: Bytes, lo: nat, hi: nat)
    requires idx.Valid() && hi <= lo && hi <= idx.len
    ensures Search(idx, oid, lo, hi) == -1
  {
  }

  lemma BucketHolds(idx: PackIndex, oid: Bytes)
    requires idx.Valid() && |oid| == RawLen(idx.algo) && Consistent(idx)
    ensures var b := oid[0] as int;
            forall i :: 0 <= i < idx.len && idx.OidAt(i) == oid ==>
              BucketStart(idx, b) <= i < FanAt(idx.file, b)
  {
    hide FromBigEndian, BytesLess;
    var b := oid[0] as int;
    forall i | 0 <= i < idx.len && idx.OidAt(i) == oid
      ensures BucketStart(idx, b) <= i < FanAt(idx.file, b)
    {
      assert idx.OidAt(i)[0] as int <= b;
    }
  }

  lemma HalfRemains(idx: PackIndex, oid: Bytes, mid: nat)
    requires idx.Valid() && Consistent(idx) && mid < idx.len && idx.OidAt(mid) != oid
    ensures forall i :: 0 <= i < idx.len && idx.OidAt(i) == oid ==>
              if BytesLess(idx.OidAt(mid), oid) then i > mid else i < mid
  {
    forall i | 0 <= i < idx.len && idx.OidAt(i) == oid
      ensures if BytesLess(idx.OidAt(mid), oid) then i > mid else i < mid
    {
      if !BytesLess(idx.OidAt(mid), oid) {
        BytesLessIsTotal(idx.OidAt(mid), oid);
      }
    }
  }
}
