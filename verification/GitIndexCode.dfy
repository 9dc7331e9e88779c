/** The loops that write and read a git index. */
module GitIndexCode {
  import opened Endian
  import opened GitIndex
  import opened Objects
  import opened Octets

  // ---- writing ----

  /** Puts an entry behind all that it does not precede. */
  method InsertEntry(es: seq<IndexEntry>, e: IndexEntry) returns (r: seq<IndexEntry>)
    ensures r == Insert(es, e)
  {
    var i := |es|;
    var behind: seq<IndexEntry> := [];
    assert es[..|es|] == es && Insert(es, e) + [] == Insert(es, e);
    while i > 0 && Precedes(e, es[i - 1])
      invariant 0 <= i <= |es| && behind == es[i..]
      invariant Insert(es, e) == Insert(es[..i], e) + behind
    {
      assert es[..i][..i - 1] == es[..i - 1];
      i := i - 1;
      behind := [es[i]] + behind;
    }
    r := es[..i] + [e] + behind;
  }

  method SortEntries(es: seq<IndexEntry>) returns (r: seq<IndexEntry>)
    ensures r == Sort(es)
  {
    r := [];
    for i := 0 to |es|
      invariant r == Sort(es[..i])
    {
      assert es[..i + 1][..i] == es[..i];
      r := InsertEntry(r, es[i]);
    }
    assert es[..|es|] == es;
  }

  lemma {:induction false} EntriesBytesOfMore(es: seq<IndexEntry>, e: IndexEntry)
    ensures EntriesBytes(es + [e]) == EntriesBytes(es) + EntryBytes(e)
    decreases |es|
  {
    hide EntryBytes;
    if es == [] {
      assert [e][1..] == [] && ([] + [e])[0] == e;
      assert EntryBytes(e) + [] == EntryBytes(e);
    } else {
      EntriesBytesOfMore(es[1..], e);
      assert (es + [e])[1..] == es[1..] + [e];
    }
  }

  lemma {:induction false} ExtensionsBytesOfMore(xs: seq<Extension>, x: Extension)
    ensures ExtensionsBytes(xs + [x]) == ExtensionsBytes(xs) + ExtensionBytes(x)
    decreases |xs|
  {
    hide ExtensionBytes;
    if xs == [] {
      assert [x][1..] == [] && ([] + [x])[0] == x;
      assert ExtensionBytes(x) + [] == ExtensionBytes(x);
    } else {
      ExtensionsBytesOfMore(xs[1..], x);
      assert (xs + [x])[1..] == xs[1..] + [x];
    }
  }

  method AppendWords(stat: seq<nat>, out0: Bytes) returns (out: Bytes)
    ensures out == out0 + Words(stat)
  {
    hide BigEndian;
    out := out0;
    for i := 0 to |stat|
      invariant out == out0 + Words(stat[..i])
    {
      assert stat[..i + 1][..i] == stat[..i];
      out := out + BigEndian(stat[i], 4);
    }
    assert stat[..|stat|] == stat;
  }

  /** Appends an entry and pads it with zeros. */
  method AppendEntry(e: IndexEntry, out0: Bytes) returns (out: Bytes)
    ensures out == out0 + EntryBytes(e)
  {
    hide BigEndian, NewFlags, Words, Zeros, Pad;
    out := AppendWords(e.stat, out0);
    out := out + e.oid;
    out := out + BigEndian(NewFlags(e), 2);
    assert out == out0 + Fixed(e);
    hide Fixed;
    out := AppendExtended(e.extended, out);
    out := out + e.path;
    assert out == out0 + Unpadded(e);
    hide Unpadded;
    out := AppendPadding(out, |out| - |out0|);
    assert out == out0 + (Unpadded(e) + Zeros(Pad(|Unpadded(e)|)));
  }

  method AppendExtended(x: Extended, out0: Bytes) returns (out: Bytes)
    ensures out == out0 + ExtendedBytes(x)
  {
    out := out0;
    if x.With? {
      out := out + BigEndian(x.bits, 2);
    }
  }

  /** Appends 1 to 8 zeros, so that the length `n` becomes a multiple of 8. */
  method AppendPadding(out0: Bytes, n: nat) returns (out: Bytes)
    ensures out == out0 + Zeros(Pad(n)) && (n + Pad(n)) % 8 == 0 && 1 <= Pad(n) <= 8
  {
    var pad := 8 - n % 8;
    out := out0 + Zeros(pad);
  }

  method AppendEntries(es: seq<IndexEntry>, out0: Bytes) returns (out: Bytes)
    ensures out == out0 + EntriesBytes(es)
  {
    hide EntryBytes;
    out := out0;
    for i := 0 to |es|
      invariant out == out0 + EntriesBytes(es[..i])
    {
      EntriesBytesOfMore(es[..i], es[i]);
      assert es[..i + 1] == es[..i] + [es[i]];
      out := AppendEntry(es[i], out);
    }
    assert es[..|es|] == es;
  }

  method AppendExtensions(xs: seq<Extension>, out0: Bytes) returns (out: Bytes)
    ensures out == out0 + ExtensionsBytes(xs)
  {
    hide ExtensionBytes;
    out := out0;
    for i := 0 to |xs|
      invariant out == out0 + ExtensionsBytes(xs[..i])
    {
      ExtensionsBytesOfMore(xs[..i], xs[i]);
      assert xs[..i + 1] == xs[..i] + [xs[i]];
      out := AppendExtension(xs[i], out);
    }
    assert xs[..|xs|] == xs;
  }

  method HasExtended(es: seq<IndexEntry>) returns (found: bool)
    ensures found == AnyExtended(es)
  {
    for i := 0 to |es|
      invariant forall k :: 0 <= k < i ==> !es[k].extended.With?
    {
      if es[i].extended.With? {
        return true;
      }
    }
    found := false;
  }

  /** Serializes an index. */
  method Serialize(ix: Index, hash: Bytes -> Bytes) returns (out: Bytes)
    ensures out == Serialized(ix, hash)
  {
    hide EntriesBytes, ExtensionsBytes, BigEndian, Sort, AnyExtended;
    var extended := HasExtended(ix.entries);
    var version := if extended then 3 else 2;
    var sorted := SortEntries(ix.entries);
    out := DIRC + BigEndian(version, 4) + BigEndian(|ix.entries|, 4);
    out := AppendEntries(sorted, out);
    out := AppendExtensions(ix.extensions, out);
    out := out + hash(out);
  }

  method AppendExtension(x: Extension, out0: Bytes) returns (out: Bytes)
    ensures out == out0 + ExtensionBytes(x)
  {
    hide BigEndian;
    out := out0 + x.signature;
    out := out + BigEndian(|x.data|, 4);
    out := out + x.data;
  }

  // ---- reading ----

  method ReadChainedVarint(d: Bytes, pos0: nat) returns (r: Number)
    ensures r == ChainedVarint(d, pos0)
  {
    if pos0 >= |d| {
      return NoNumber(TruncatedVarint);
    }
    var b, pos: nat := d[pos0], pos0 + 1;
    var v: nat := b as int % 128;
    while b >= 128
      invariant pos <= |d| && ChainedFrom(d, pos, b, v) == ChainedVarint(d, pos0)
      decreases |d| - pos
    {
      if pos >= |d| {
        return NoNumber(TruncatedVarint);
      }
      b := d[pos];
      pos := pos + 1;
      if v + 1 >= U64 {
        return NoNumber(VarintOverflow);
      }
      v := (v + 1) * 128 % U64 + b as int % 128;
    }
    r := Number(v, pos);
  }

  /** The first NUL from `pos` on, or the end. */
  method SearchNul(d: Bytes, pos: nat) returns (n: nat)
    requires pos <= |d|
    ensures n == FindNul(d, pos)
  {
    n := pos;
    while n < |d| && d[n] != 0
      invariant pos <= n <= |d| && FindNul(d, n) == FindNul(d, pos)
    {
      n := n + 1;
    }
  }

  /** Whether only zeros follow. */
  method CheckPadding(d: Bytes, pos: nat, n: nat) returns (ok: bool)
    ensures ok == ZerosAt(d, pos, n)
  {
    if pos + n > |d| {
      return false;
    }
    for k := pos to pos + n
      invariant forall j :: pos <= j < k ==> d[j] == 0
    {
      if d[k] != 0 {
        return false;
      }
    }
    ok := true;
  }

  method ParsePath(d: Bytes, start: nat, pos: nat, version: nat, nameLen: nat, prev: Bytes) returns (r: PathRead)
    requires start <= pos <= |d|
    ensures r == if version == 4 then PathV4(d, pos, prev) else PaddedPath(d, start, pos, nameLen, prev)
  {
    if version == 4 {
      var strip := ReadChainedVarint(d, pos);
      if strip.NoNumber? {
        return NoPath(strip.error);
      }
      if strip.end > |d| {
        return NoPath(UnterminatedV4Path);
      }
      var nul := SearchNul(d, strip.end);
      if nul == |d| {
        return NoPath(UnterminatedV4Path);
      }
      if strip.value > |prev| {
        return NoPath(StripTooLong);
      }
      var path := prev[..|prev| - strip.value] + d[strip.end..nul];
      return PathRead(path, nul + 1, path);
    }
    var end: nat;
    if nameLen == LONG_NAME {
      end := SearchNul(d, pos);
      if end == |d| {
        return NoPath(UnterminatedLongPath);
      }
    } else {
      if pos + nameLen > |d| {
        return NoPath(TruncatedPath);
      }
      end := pos + nameLen;
    }
    var pad := 8 - (end - start) % 8;
    var ok := CheckPadding(d, end, pad);
    if !ok {
      return NoPath(BadPadding);
    }
    r := PathRead(d[pos..end], end + pad, prev);
  }

  method ParseEntry(d: Bytes, start: nat, version: nat, raw: nat, prev: Bytes) returns (r: EntryRead)
    ensures r == ReadEntry(d, start, version, raw, prev)
  {
    hide FromBigEndian, PathV4, PaddedPath;
    if start + 40 + raw + 2 > |d| {
      return NoEntry(TruncatedEntry);
    }
    var pos := start + 40 + raw + 2;
    var flags := FromBigEndian(d[pos - 2..pos]);
    var extended := Plain;
    if flags / 0x4000 % 2 != 0 {
      if version < 3 {
        return NoEntry(ExtendedInV2);
      }
      if pos + 2 > |d| {
        return NoEntry(TruncatedExtended);
      }
      extended := With(FromBigEndian(d[pos..pos + 2]));
      pos := pos + 2;
    }
    var path := ParsePath(d, start, pos, version, flags % 0x1000, prev);
    if path.NoPath? {
      return NoEntry(path.error);
    }
    var stat := ReadWords(d, start, 10);
    r := EntryRead(IndexEntry(stat, d[start + 40..start + 40 + raw], flags, extended, path.path), path.end, path.prev);
  }

  function WithEntries(es: seq<IndexEntry>, rest: EntriesRead): EntriesRead {
    match rest
    case NoEntries(error) => rest
    case EntriesRead(more, end) => EntriesRead(es + more, end)
  }

  lemma WithOneMore(es: seq<IndexEntry>, e: IndexEntry, rest: EntriesRead)
    ensures WithEntries(es, WithEntry(e, rest)) == WithEntries(es + [e], rest)
  {
    if rest.EntriesRead? {
      assert es + ([e] + rest.entries) == es + [e] + rest.entries;
    }
  }

  function WithExtensions(xs: seq<Extension>, rest: ExtensionsRead): ExtensionsRead {
    match rest
    case NoExtensions(error) => rest
    case ExtensionsRead(more) => ExtensionsRead(xs + more)
  }

  lemma WithOneMoreExtension(xs: seq<Extension>, x: Extension, rest: ExtensionsRead)
    ensures WithExtensions(xs, WithExtension(x, rest)) == WithExtensions(xs + [x], rest)
  {
    if rest.ExtensionsRead? {
      assert xs + ([x] + rest.extensions) == xs + [x] + rest.extensions;
    }
  }

  method ParseEntries(d: Bytes, version: nat, raw: nat, count: nat) returns (r: EntriesRead)
    ensures r == ReadEntries(d, 12, version, raw, [], count)
  {
    hide ReadEntry;
    var pos: nat, entries: seq<IndexEntry>, prev: Bytes := 12, [], [];
    ghost var all := ReadEntries(d, 12, version, raw, [], count);
    assert all.EntriesRead? ==> [] + all.entries == all.entries;
    for i := 0 to count
      invariant all == WithEntries(entries, ReadEntries(d, pos, version, raw, prev, count - i))
    {
      var e := ParseEntry(d, pos, version, raw, prev);
      if e.NoEntry? {
        return NoEntries(e.error);
      }
      WithOneMore(entries, e.entry, ReadEntries(d, e.end, version, raw, e.prev, count - i - 1));
      entries := entries + [e.entry];
      pos, prev := e.end, e.prev;
    }
    assert entries + [] == entries;
    r := EntriesRead(entries, pos);
  }

  /** What reading extensions does at one place. */
  lemma ExtensionStep(d: Bytes, pos: nat, contentEnd: nat)
    requires contentEnd <= |d|
    ensures ReadExtensions(d, pos, contentEnd) ==
            if pos >= contentEnd then ExtensionsRead([])
            else if pos + 8 > contentEnd then NoExtensions(TruncatedExtensionHeader)
            else
              var size := FromBigEndian(d[pos + 4..pos + 8]);
              if pos + 8 + size > |d| then NoExtensions(ExtensionOverrun)
              else WithExtension(Extension(d[pos..pos + 4], d[pos + 8..pos + 8 + size]), ReadExtensions(d, pos + 8 + size, contentEnd))
  {
    hide FromBigEndian;
  }

  method ParseExtensions(d: Bytes, pos0: nat, contentEnd: nat) returns (r: ExtensionsRead)
    requires contentEnd <= |d|
    ensures r == ReadExtensions(d, pos0, contentEnd)
  {
    hide FromBigEndian, ReadExtensions;
    var pos, extensions: seq<Extension> := pos0, [];
    ghost var all := ReadExtensions(d, pos0, contentEnd);
    assert all.ExtensionsRead? ==> [] + all.extensions == all.extensions;
    while pos < contentEnd
      invariant all == WithExtensions(extensions, ReadExtensions(d, pos, contentEnd))
      decreases |d| + 8 - pos
    {
      ExtensionStep(d, pos, contentEnd);
      if pos + 8 > contentEnd {
        return NoExtensions(TruncatedExtensionHeader);
      }
      var signature, size := d[pos..pos + 4], FromBigEndian(d[pos + 4..pos + 8]);
      if pos + 8 + size > |d| {
        return NoExtensions(ExtensionOverrun);
      }
      var x := Extension(signature, d[pos + 8..pos + 8 + size]);
      WithOneMoreExtension(extensions, x, ReadExtensions(d, pos + 8 + size, contentEnd));
      extensions := extensions + [x];
      pos := pos + 8 + size;
    }
    ExtensionStep(d, pos, contentEnd);
    assert extensions + [] == extensions;
    r := ExtensionsRead(extensions);
  }

  method ParseIndex(d: Bytes, algo: HashAlgo, hash: Bytes -> Bytes) returns (r: Parse)
    ensures r == Parsed(d, algo, hash)
  {
    hide FromBigEndian, ReadEntries, ReadExtensions;
    var raw := RawLen(algo);
    if |d| < 12 + raw || d[..4] != DIRC {
      return Failed(BadMagic);
    }
    var version := FromBigEndian(d[4..8]);
    if !(2 <= version <= 4) {
      return Failed(UnsupportedVersion);
    }
    var count := FromBigEndian(d[8..12]);
    var contentEnd := |d| - raw;
    if hash(d[..contentEnd]) != d[contentEnd..] {
      return Failed(ChecksumMismatch);
    }
    var entries := ParseEntries(d, version, raw, count);
    if entries.NoEntries? {
      return Failed(entries.error);
    }
    var extensions := ParseExtensions(d, entries.end, contentEnd);
    if extensions.NoExtensions? {
      return Failed(extensions.error);
    }
    r := Ok(Index(version, entries.entries, extensions.extensions));
  }
}
