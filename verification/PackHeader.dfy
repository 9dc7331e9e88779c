/** Headers of pack entries (crates/alt-git-pack/src/write.rs, pack.rs, index_pack.rs; git's
    gitformat-pack, section "Pack entries"). What the writer puts down is read back, and a base
    offset is what its one spelling says. */
module PackHeader {
  import opened ChainedNumber
  import opened Delta
  import opened DeltaFormat
  import opened Objects
  import opened Octets
  import opened PackResolve
  import opened Places

  // ---- what is written ----

  function TypeId(kind: ObjectKind): nat {
    match kind
    case Commit => 1
    case Tree => 2
    case Blob => 3
    case Tag => 4
  }

  /** `byte` and, while something is left, groups of seven bits, the lowest first. */
  function Spelled(byte: nat, rest: nat): (b: Bytes)
    requires byte < 128
    ensures b != []
    decreases rest
  {
    if rest == 0 then [byte as Byte] else [(128 + byte) as Byte] + Spelled(rest % 128, rest / 128)
  }

  /** Type and size: four bits of the size in the first byte. */
  function HeaderBytes(typeId: nat, size: nat): Bytes
    requires typeId < 8
  {
    Spelled(16 * typeId + size % 16, size / 16)
  }

  method WriteHeader(kind: ObjectKind, len: nat) returns (header: Bytes)
    ensures header == HeaderBytes(TypeId(kind), len)
  {
    header := [];
    var size: nat, byte: nat := len / 16, 16 * TypeId(kind) + len % 16;
    ghost var whole := HeaderBytes(TypeId(kind), len);
    assert [] + whole == whole;
    while size > 0
      invariant byte < 128 && whole == header + Spelled(byte, size)
    {
      assert header + ([(128 + byte) as Byte] + Spelled(size % 128, size / 128))
          == header + [(128 + byte) as Byte] + Spelled(size % 128, size / 128);
      header := header + [(128 + byte) as Byte];
      byte := size % 128;
      size := size / 128;
    }
    header := header + [byte as Byte];
  }

  // ---- what is read ----

  datatype HeaderError =
    | OutOfRange | TruncatedSize | SizeOverflow | TruncatedOfs | BeforePackStart | TruncatedRef | InvalidType

  datatype EntryHeader = EntryHeader(kind: EntryKind, size: nat, dataAt: nat) | NoEntryHeader(error: HeaderError)

  datatype SizeRead = SizeRead(size: nat, end: nat) | NoSize(error: HeaderError)

  /** The size behind a byte. Shifting a group out of 64 bits overflows. */
  function ReadSize(d: Bytes, pos: nat, last: Byte, shift: nat, size: nat): SizeRead
    requires pos <= |d|
    decreases |d| - pos
  {
    if last < 128 then SizeRead(size, pos)
    else if pos >= |d| then NoSize(TruncatedSize)
    else if shift >= 64 then NoSize(SizeOverflow)
    else ReadSize(d, pos + 1, d[pos], shift + 7, size + (d[pos] as int % 128 * Pow2(shift)) % U64)
  }

  function ReadDistance(d: Bytes, pos: nat, last: Byte, v: nat): SizeRead
    requires pos <= |d|
    decreases |d| - pos
  {
    if last < 128 then SizeRead(v, pos)
    else if pos >= |d| then NoSize(TruncatedOfs)
    else ReadDistance(d, pos + 1, d[pos], (v + 1) * 128 % U64 + d[pos] as int % 128)
  }

  /** The header at `offset`. */
  function HeaderAt(d: Bytes, offset: nat, raw: nat): EntryHeader {
    if offset >= |d| then NoEntryHeader(OutOfRange)
    else
      match ReadSize(d, offset + 1, d[offset], 4, d[offset] as int % 16)
      case NoSize(error) => NoEntryHeader(error)
      case SizeRead(size, pos) =>
        var typeId := d[offset] as int / 16 % 8;
        if typeId == 6 then
          if pos >= |d| then NoEntryHeader(TruncatedOfs)
          else
            match ReadDistance(d, pos + 1, d[pos], d[pos] as int % 128)
            case NoSize(error) => NoEntryHeader(error)
            case SizeRead(dist, p) =>
              if dist > offset then NoEntryHeader(BeforePackStart) else EntryHeader(Ofs(offset - dist), size, p)
        else if typeId == 7 then
          if pos + raw > |d| then NoEntryHeader(TruncatedRef) else EntryHeader(Ref(d[pos..pos + raw]), size, pos + raw)
        else if typeId == 1 then EntryHeader(EntryKind.Plain(Commit), size, pos)
        else if typeId == 2 then EntryHeader(EntryKind.Plain(Tree), size, pos)
        else if typeId == 3 then EntryHeader(EntryKind.Plain(Blob), size, pos)
        else if typeId == 4 then EntryHeader(EntryKind.Plain(Tag), size, pos)
        else NoEntryHeader(InvalidType)
  }

  /** Reads the header at `offset`. */
  method ReadHeader(d: Bytes, offset: nat, raw: nat) returns (r: EntryHeader)
    ensures r == HeaderAt(d, offset, raw)
  {
    var pos := offset;
    if pos >= |d| {
      return NoEntryHeader(OutOfRange);
    }
    var byte := d[pos];
    pos := pos + 1;
    var typeId := byte as int / 16 % 8;
    var size: nat, shift: nat := byte as int % 16, 4;
    ghost var whole := ReadSize(d, pos, byte, shift, size);
    while byte >= 128
      invariant offset < pos <= |d| && ReadSize(d, pos, byte, shift, size) == whole
      decreases |d| - pos
    {
      if pos >= |d| {
        return NoEntryHeader(TruncatedSize);
      }
      if shift >= 64 {
        return NoEntryHeader(SizeOverflow);
      }
      byte := d[pos];
      pos := pos + 1;
      size := size + (byte as int % 128 * Pow2(shift)) % U64;
      shift := shift + 7;
    }
    match typeId {
      case 1 => r := EntryHeader(EntryKind.Plain(Commit), size, pos);
      case 2 => r := EntryHeader(EntryKind.Plain(Tree), size, pos);
      case 3 => r := EntryHeader(EntryKind.Plain(Blob), size, pos);
      case 4 => r := EntryHeader(EntryKind.Plain(Tag), size, pos);
      case 6 =>
        if pos >= |d| {
          return NoEntryHeader(TruncatedOfs);
        }
        byte := d[pos];
        pos := pos + 1;
        var dist: nat := byte as int % 128;
        ghost var distance := ReadDistance(d, pos, byte, dist);
        while byte >= 128
          invariant offset < pos <= |d| && ReadDistance(d, pos, byte, dist) == distance
          decreases |d| - pos
        {
          if pos >= |d| {
            return NoEntryHeader(TruncatedOfs);
          }
          byte := d[pos];
          pos := pos + 1;
          dist := (dist + 1) * 128 % U64 + byte as int % 128;
        }
        if dist > offset {
          return NoEntryHeader(BeforePackStart);
        }
        r := EntryHeader(Ofs(offset - dist), size, pos);
      case 7 =>
        if pos + raw > |d| {
          return NoEntryHeader(TruncatedRef);
        }
        r := EntryHeader(Ref(d[pos..pos + raw]), size, pos + raw);
      case _ => r := NoEntryHeader(InvalidType);
    }
  }

  // ---- reading back ----

  lemma {:induction false} PowOverflows(shift: nat)
    requires shift >= 64
    ensures Pow2(shift) >= U64
    decreases shift
  {
    if shift == 64 {
      PowersOf128();
      assert Pow2(64) == 2 * Pow2(63);
    } else {
      PowOverflows(shift - 1);
    }
  }

  /** One group of a size that fits. */
  lemma SizeGroup(n: nat, shift: nat, size: nat)
    requires n > 0 && size + n * Pow2(shift) < U64
    ensures shift < 64 && (n % 128 * Pow2(shift)) % U64 == n % 128 * Pow2(shift)
    ensures size + n % 128 * Pow2(shift) + (n / 128) * Pow2(shift + 7) == size + n * Pow2(shift)
  {
    var p, q, r := Pow2(shift), n / 128, n % 128;
    SevenSteps(shift + 7);
    hide Pow2;
    assert p <= n * p by {
      Larger(n, p);
    }
    if shift >= 64 {
      PowOverflows(shift);
    }
    Parts(q, r, p);
  }

  lemma Larger(n: nat, p: nat)
    requires n > 0
    ensures p <= n * p
  {
  }

  lemma Parts(q: nat, r: nat, p: nat)
    ensures r * p + q * (128 * p) == (128 * q + r) * p && 0 <= r * p <= (128 * q + r) * p
  {
    assert q * (128 * p) == 128 * q * p;
    assert 0 <= 128 * q * p;
    assert (128 * q + r) * p == 128 * q * p + r * p;
  }

  lemma {:induction false} SizeIsRead(d: Bytes, pos: nat, byte: nat, rest: nat, shift: nat, size: nat)
    requires byte < 128 && At(d, pos, Spelled(byte, rest)) && size + rest * Pow2(shift) < U64
    ensures pos < |d| && d[pos] as int % 128 == byte
    ensures ReadSize(d, pos + 1, d[pos], shift, size) == SizeRead(size + rest * Pow2(shift), pos + |Spelled(byte, rest)|)
    decreases rest
  {
    if rest == 0 {
      AtByte(d, pos, byte as Byte);
    } else {
      AtSplit(d, pos, [(128 + byte) as Byte], Spelled(rest % 128, rest / 128));
      AtByte(d, pos, (128 + byte) as Byte);
      hide At, Pow2, Spelled;
      SizeGroup(rest, shift, size);
      SizeIsRead(d, pos + 1, rest % 128, rest / 128, shift + 7, size + rest % 128 * Pow2(shift));
    }
  }

  /** Type and size of a header are read back. */
  lemma SizeOfHeader(d: Bytes, offset: nat, typeId: nat, size: nat)
    requires typeId < 8 && At(d, offset, HeaderBytes(typeId, size)) && size < U64
    ensures offset < |d| && d[offset] as int / 16 % 8 == typeId
    ensures ReadSize(d, offset + 1, d[offset], 4, d[offset] as int % 16) == SizeRead(size, offset + |HeaderBytes(typeId, size)|)
  {
    assert Pow2(4) == 16;
    hide At, Pow2, Spelled;
    SizeIsRead(d, offset, 16 * typeId + size % 16, size / 16, 4, size % 16);
    LowBits(d[offset] as int, typeId, size % 16);
  }

  lemma LowBits(x: nat, t: nat, low: nat)
    requires x < 256 && t < 8 && low < 16 && x % 128 == 16 * t + low
    ensures x / 16 % 8 == t && x % 16 == low
  {
    assert x == 16 * t + low || x == 128 + 16 * t + low;
  }

  /** A header that was written is read back: kind, size, and where the data starts. */
  lemma HeaderIsReadBack(d: Bytes, offset: nat, kind: ObjectKind, size: nat, raw: nat)
    requires At(d, offset, HeaderBytes(TypeId(kind), size)) && size < U64
    ensures HeaderAt(d, offset, raw)
         == EntryHeader(EntryKind.Plain(kind), size, offset + |HeaderBytes(TypeId(kind), size)|)
  {
    hide At, HeaderBytes, ReadSize;
    SizeOfHeader(d, offset, TypeId(kind), size);
  }

  /** Reads a distance as its chain says. */
  lemma {:induction false} DistanceIsRead(d: Bytes, pos: nat, b: Bytes, k: nat)
    requires IsChain(b) && At(d, pos, b) && 1 <= k <= |b| && ChainValue(b) < U64
    ensures pos + k <= |d| && ReadDistance(d, pos + k, b[k - 1], ChainValue(b[..k])) == SizeRead(ChainValue(b), pos + |b|)
    decreases |b| - k
  {
    hide ChainValue;
    if k == |b| {
      assert b[..k] == b;
    } else {
      assert d[pos + k] == d[pos..pos + |b|][k] == b[k];
      assert b[..k + 1] == b[..k] + [b[k]];
      ValueStep(b[..k], b[k]);
      ChainGrows(b, k + 1);
      DistanceIsRead(d, pos, b, k + 1);
      hide At, IsChain;
      var v := ChainValue(b[..k]);
      assert (v + 1) * 128 % U64 == (v + 1) * 128;
    }
  }

  /** A header of a delta on an earlier entry names the entry at its distance. */
  lemma OfsHeaderIsRead(d: Bytes, offset: nat, size: nat, dist: nat, raw: nat)
    requires At(d, offset, HeaderBytes(6, size) + Chained(dist)) && size < U64 && dist <= offset < U64
    ensures HeaderAt(d, offset, raw)
         == EntryHeader(Ofs(offset - dist), size, offset + |HeaderBytes(6, size)| + |Chained(dist)|)
  {
    hide At, HeaderBytes, ReadSize, Chained, ChainValue, ReadDistance, IsChain;
    var pos := offset + |HeaderBytes(6, size)|;
    AtSplit(d, offset, HeaderBytes(6, size), Chained(dist));
    SizeOfHeader(d, offset, 6, size);
    ChainedValue(dist);
    FirstOfChain(d, pos, Chained(dist));
    DistanceIsRead(d, pos, Chained(dist), 1);
  }

  lemma FirstOfChain(d: Bytes, pos: nat, b: Bytes)
    requires IsChain(b) && At(d, pos, b)
    ensures b != [] && pos < |d| && d[pos] == b[0] && ChainValue(b[..1]) == d[pos] as int % 128
  {
    assert d[pos..pos + |b|][0] == d[pos];
  }
}
