/** The git index file (crates/alt-git-index/src/lib.rs; git's gitformat-index, section "Index
    entry").

    `Serialized` writes entries sorted by path and stage, with recomputed name length and
    extended bit, and 1 to 8 bytes of padding. `Parsed` reads versions 2 to 4. */
module GitIndex {
  import opened ByteOrder
  import opened Endian
  import opened Objects
  import opened Octets

  const DIRC: Bytes := [68, 73, 82, 67]

  const LONG_NAME := 0xFFF

  const U64: nat := 0x1_0000_0000_0000_0000

  datatype Extended = Plain | With(bits: nat)

  /** An entry. `stat` are its ten 32-bit words in file order: ctime, mtime (two each), dev, ino,
      mode, uid, gid and size. */
  datatype IndexEntry = IndexEntry(stat: seq<nat>, oid: Bytes, flags: nat, extended: Extended, path: Bytes) {
    predicate Valid(raw: nat) {
      && |stat| == 10 && (forall k :: 0 <= k < 10 ==> stat[k] < 0x1_0000_0000)
      && |oid| == raw && flags < 0x1_0000 && (extended.With? ==> extended.bits < 0x1_0000)
    }

    /** The stage of a conflict, 0 to 3. */
    function Stage(): nat {
      flags / 0x1000 % 4
    }
  }

  datatype Extension = Extension(signature: Bytes, data: Bytes) {
    predicate Valid() {
      |signature| == 4 && |data| < 0x1_0000_0000
    }
  }

  datatype Index = Index(version: nat, entries: seq<IndexEntry>, extensions: seq<Extension>)

  ghost predicate AllValid(es: seq<IndexEntry>, raw: nat) {
    forall k :: 0 <= k < |es| ==> es[k].Valid(raw)
  }

  ghost predicate AllExtensionsValid(xs: seq<Extension>) {
    forall k :: 0 <= k < |xs| ==> xs[k].Valid()
  }

  // ---- the order of entries ----

  predicate Precedes(a: IndexEntry, b: IndexEntry) {
    BytesLess(a.path, b.path) || (a.path == b.path && a.Stage() < b.Stage())
  }

  predicate Sorted(es: seq<IndexEntry>) {
    forall i, j :: 0 <= i < j < |es| ==> !Precedes(es[j], es[i])
  }

  /** `e` behind all that it does not precede. */
  function Insert(es: seq<IndexEntry>, e: IndexEntry): seq<IndexEntry> {
    if es == [] || !Precedes(e, es[|es| - 1]) then es + [e]
    else Insert(es[..|es| - 1], e) + [es[|es| - 1]]
  }

  /** A stable sort by path and stage. */
  function Sort(es: seq<IndexEntry>): seq<IndexEntry> {
    if es == [] then [] else Insert(Sort(es[..|es| - 1]), es[|es| - 1])
  }

  // ---- writing ----

  function Words(stat: seq<nat>): (b: Bytes)
    ensures |b| == 4 * |stat|
  {
    if stat == [] then [] else Words(stat[..|stat| - 1]) + BigEndian(stat[|stat| - 1], 4)
  }

  /** The flags with the name length and the extended bit recomputed. */
  function NewFlags(e: IndexEntry): nat {
    var high := e.flags / 0x1000;
    0x1000 * (high % 4 + 8 * (high / 8) + if e.extended.With? then 4 else 0)
    + if |e.path| < LONG_NAME then |e.path| else LONG_NAME
  }

  function ExtendedBytes(x: Extended): Bytes {
    if x.With? then BigEndian(x.bits, 2) else []
  }

  function Fixed(e: IndexEntry): Bytes {
    Words(e.stat) + e.oid + BigEndian(NewFlags(e), 2)
  }

  function Unpadded(e: IndexEntry): Bytes {
    Fixed(e) + ExtendedBytes(e.extended) + e.path
  }

  function Pad(n: nat): nat {
    8 - n % 8
  }

  function EntryBytes(e: IndexEntry): Bytes {
    Unpadded(e) + Zeros(Pad(|Unpadded(e)|))
  }

  function EntriesBytes(es: seq<IndexEntry>): Bytes {
    if es == [] then [] else EntryBytes(es[0]) + EntriesBytes(es[1..])
  }

  function ExtensionBytes(x: Extension): Bytes {
    x.signature + BigEndian(|x.data|, 4) + x.data
  }

  function ExtensionsBytes(xs: seq<Extension>): Bytes {
    if xs == [] then [] else ExtensionBytes(xs[0]) + ExtensionsBytes(xs[1..])
  }

  predicate AnyExtended(es: seq<IndexEntry>) {
    exists k :: 0 <= k < |es| && es[k].extended.With?
  }

  /** The least version that can hold the entries. */
  function VersionFor(es: seq<IndexEntry>): nat {
    if AnyExtended(es) then 3 else 2
  }

  function Content(ix: Index): Bytes {
    DIRC + BigEndian(VersionFor(ix.entries), 4) + BigEndian(|ix.entries|, 4)
    + EntriesBytes(Sort(ix.entries)) + ExtensionsBytes(ix.extensions)
  }

  function Serialized(ix: Index, hash: Bytes -> Bytes): Bytes {
    Content(ix) + hash(Content(ix))
  }

  // ---- reading ----

  datatype IndexError =
    | BadMagic | UnsupportedVersion | ChecksumMismatch | TruncatedEntry | ExtendedInV2 | TruncatedExtended
    | UnterminatedLongPath | TruncatedPath | BadPadding | TruncatedVarint | VarintOverflow | UnterminatedV4Path
    | StripTooLong | TruncatedExtensionHeader | ExtensionOverrun

  /** An entry that was read, the position behind it, and the path that the next one builds on. */
  datatype EntryRead = EntryRead(entry: IndexEntry, end: nat, prev: Bytes) | NoEntry(error: IndexError)

  datatype PathRead = PathRead(path: Bytes, end: nat, prev: Bytes) | NoPath(error: IndexError)

  datatype Number = Number(value: nat, end: nat) | NoNumber(error: IndexError)

  datatype ExtendedRead = ExtendedRead(extended: Extended, end: nat) | NoExtended(error: IndexError)

  function ReadWords(d: Bytes, pos: nat, n: nat): (words: seq<nat>)
    requires pos + 4 * n <= |d|
    ensures |words| == n
  {
    if n == 0 then [] else ReadWords(d, pos, n - 1) + [FromBigEndian(d[pos + 4 * (n - 1)..pos + 4 * n])]
  }

  /** The first NUL from `pos` on, or the end. */
  function FindNul(d: Bytes, pos: nat): (n: nat)
    requires pos <= |d|
    ensures pos <= n <= |d| && (n < |d| ==> d[n] == 0)
    ensures forall k :: pos <= k < n ==> d[k] != 0
    decreases |d| - pos
  {
    if pos == |d| || d[pos] == 0 then pos else FindNul(d, pos + 1)
  }

  lemma {:induction false} NulIsFound(d: Bytes, pos: nat, end: nat)
    requires pos <= end < |d| && d[end] == 0 && forall k :: pos <= k < end ==> d[k] != 0
    ensures FindNul(d, pos) == end
    decreases end - pos
  {
    if pos < end {
      NulIsFound(d, pos + 1, end);
    }
  }

  predicate ZerosAt(d: Bytes, pos: nat, n: nat) {
    pos + n <= |d| && forall k :: pos <= k < pos + n ==> d[k] == 0
  }

  /** A varint that adds one with every byte that goes on. */
  function ChainedVarint(d: Bytes, pos: nat): Number {
    if pos >= |d| then NoNumber(TruncatedVarint) else ChainedFrom(d, pos + 1, d[pos], d[pos] as int % 128)
  }

  function ChainedFrom(d: Bytes, pos: nat, last: Byte, v: nat): Number
    requires pos <= |d|
    decreases |d| - pos
  {
    if last < 128 then Number(v, pos)
    else if pos >= |d| then NoNumber(TruncatedVarint)
    else if v + 1 >= U64 then NoNumber(VarintOverflow)
    else ChainedFrom(d, pos + 1, d[pos], (v + 1) * 128 % U64 + d[pos] as int % 128)
  }

  function PathV4(d: Bytes, pos: nat, prev: Bytes): PathRead {
    match ChainedVarint(d, pos)
    case NoNumber(error) => NoPath(error)
    case Number(strip, p) =>
      if p > |d| || FindNul(d, p) == |d| then NoPath(UnterminatedV4Path)
      else if strip > |prev| then NoPath(StripTooLong)
      else
        var path := prev[..|prev| - strip] + d[p..FindNul(d, p)];
        PathRead(path, FindNul(d, p) + 1, path)
  }

  /** A path of versions 2 and 3 with its padding. */
  function PaddedPath(d: Bytes, start: nat, pos: nat, nameLen: nat, prev: Bytes): PathRead
    requires start <= pos <= |d|
  {
    if nameLen == LONG_NAME && FindNul(d, pos) == |d| then NoPath(UnterminatedLongPath)
    else if nameLen != LONG_NAME && pos + nameLen > |d| then NoPath(TruncatedPath)
    else
      var end := if nameLen == LONG_NAME then FindNul(d, pos) else pos + nameLen;
      var pad := Pad(end - start);
      if ZerosAt(d, end, pad) then PathRead(d[pos..end], end + pad, prev) else NoPath(BadPadding)
  }

  function ReadExtended(d: Bytes, pos: nat, flags: nat, version: nat): ExtendedRead {
    if flags / 0x4000 % 2 == 0 then ExtendedRead(Plain, pos)
    else if version < 3 then NoExtended(ExtendedInV2)
    else if pos + 2 > |d| then NoExtended(TruncatedExtended)
    else ExtendedRead(With(FromBigEndian(d[pos..pos + 2])), pos + 2)
  }

  function ReadEntry(d: Bytes, start: nat, version: nat, raw: nat, prev: Bytes): EntryRead {
    var pos := start + 40 + raw + 2;
    if pos > |d| then NoEntry(TruncatedEntry)
    else
      var flags := FromBigEndian(d[pos - 2..pos]);
      match ReadExtended(d, pos, flags, version)
      case NoExtended(error) => NoEntry(error)
      case ExtendedRead(extended, p) =>
        match if version == 4 then PathV4(d, p, prev) else PaddedPath(d, start, p, flags % 0x1000, prev)
        case NoPath(error) => NoEntry(error)
        case PathRead(path, end, next) =>
          EntryRead(IndexEntry(ReadWords(d, start, 10), d[start + 40..start + 40 + raw], flags, extended, path), end, next)
  }

  datatype EntriesRead = EntriesRead(entries: seq<IndexEntry>, end: nat) | NoEntries(error: IndexError)

  function WithEntry(e: IndexEntry, rest: EntriesRead): EntriesRead {
    match rest
    case NoEntries(error) => rest
    case EntriesRead(es, end) => EntriesRead([e] + es, end)
  }

  function ReadEntries(d: Bytes, pos: nat, version: nat, raw: nat, prev: Bytes, count: nat): EntriesRead
    decreases count
  {
    if count == 0 then EntriesRead([], pos)
    else
      match ReadEntry(d, pos, version, raw, prev)
      case NoEntry(error) => NoEntries(error)
      case EntryRead(e, end, next) => WithEntry(e, ReadEntries(d, end, version, raw, next, count - 1))
  }

  datatype ExtensionsRead = ExtensionsRead(extensions: seq<Extension>) | NoExtensions(error: IndexError)

  function WithExtension(x: Extension, rest: ExtensionsRead): ExtensionsRead {
    match rest
    case NoExtensions(error) => rest
    case ExtensionsRead(xs) => ExtensionsRead([x] + xs)
  }

  function ReadExtensions(d: Bytes, pos: nat, contentEnd: nat): ExtensionsRead
    requires contentEnd <= |d|
    decreases |d| + 8 - pos
  {
    if pos >= contentEnd then ExtensionsRead([])
    else if pos + 8 > contentEnd then NoExtensions(TruncatedExtensionHeader)
    else
      var size := FromBigEndian(d[pos + 4..pos + 8]);
      if pos + 8 + size > |d| then NoExtensions(ExtensionOverrun)
      else WithExtension(Extension(d[pos..pos + 4], d[pos + 8..pos + 8 + size]), ReadExtensions(d, pos + 8 + size, contentEnd))
  }

  datatype Parse = Ok(index: Index) | Failed(error: IndexError)

  function Parsed(d: Bytes, algo: HashAlgo, hash: Bytes -> Bytes): Parse {
    var raw := RawLen(algo);
    if |d| < 12 + raw || d[..4] != DIRC then Failed(BadMagic)
    else
      var version := FromBigEndian(d[4..8]);
      var contentEnd := |d| - raw;
      if !(2 <= version <= 4) then Failed(UnsupportedVersion)
      else if hash(d[..contentEnd]) != d[contentEnd..] then Failed(ChecksumMismatch)
      else
        match ReadEntries(d, 12, version, raw, [], FromBigEndian(d[8..12]))
        case NoEntries(error) => Failed(error)
        case EntriesRead(entries, pos) =>
          match ReadExtensions(d, pos, contentEnd)
          case NoExtensions(error) => Failed(error)
          case ExtensionsRead(extensions) => Ok(Index(version, entries, extensions))
  }
}
