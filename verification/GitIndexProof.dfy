/** Reading back a serialized git index. */
module GitIndexProof {
  import opened ByteOrder
  import opened Endian
  import opened GitIndex
  import opened Objects
  import opened Octets
  import opened Places

  /** The entry as it is read back. */
  function Normalized(e: IndexEntry): IndexEntry {
    e.(flags := NewFlags(e))
  }

  function NormalizedAll(es: seq<IndexEntry>): (r: seq<IndexEntry>)
    ensures |r| == |es|
  {
    if es == [] then [] else [Normalized(es[0])] + NormalizedAll(es[1..])
  }

  /** A path that is too long for its length to be recorded must not hold a NUL. */
  predicate Readable(e: IndexEntry) {
    |e.path| >= LONG_NAME ==> 0 !in e.path
  }

  // ---- fields ----

  /** What the recomputed flags say: the stage and the first bit are kept. */
  lemma FlagsOf(e: IndexEntry)
    requires e.flags < 0x1_0000
    ensures NewFlags(e) < 0x1_0000
    ensures NewFlags(e) % 0x1000 == if |e.path| < LONG_NAME then |e.path| else LONG_NAME
    ensures NewFlags(e) / 0x4000 % 2 == if e.extended.With? then 1 else 0
    ensures Normalized(e).Stage() == e.Stage() == NewFlags(e) / 0x1000 % 4 && NewFlags(e) / 0x8000 == e.flags / 0x8000
  {
    var high := e.flags / 0x1000;
    var len := if |e.path| < LONG_NAME then |e.path| else LONG_NAME;
    var x := if e.extended.With? then 4 else 0;
    var top := high % 4 + 8 * (high / 8) + x;
    assert NewFlags(e) == 0x1000 * top + len && len < 0x1000 && top < 16;
    assert NewFlags(e) / 0x1000 == top;
    assert NewFlags(e) / 0x4000 == top / 4 && NewFlags(e) / 0x8000 == top / 8;
  }

  lemma NameLength(e: IndexEntry)
    requires e.flags < 0x1_0000
    ensures NewFlags(e) % 0x1000 == if |e.path| < LONG_NAME then |e.path| else LONG_NAME
  {
    FlagsOf(e);
  }

  lemma {:induction false} WordsAreRead(d: Bytes, pos: nat, stat: seq<nat>)
    requires At(d, pos, Words(stat)) && forall k :: 0 <= k < |stat| ==> stat[k] < 0x1_0000_0000
    ensures ReadWords(d, pos, |stat|) == stat
    decreases |stat|
  {
    if stat != [] {
      var rest, last := stat[..|stat| - 1], stat[|stat| - 1];
      AtSplit(d, pos, Words(rest), BigEndian(last, 4));
      WordsAreRead(d, pos, rest);
      Widths();
      BigEndianRoundTrip(last, 4);
    }
  }

  lemma NumberAt(d: Bytes, pos: nat, n: nat, w: nat)
    requires At(d, pos, BigEndian(n, w)) && n < Pow256(w)
    ensures FromBigEndian(d[pos..pos + w]) == n
  {
    BigEndianRoundTrip(n, w);
  }

  /** Where the fields of an entry stand. */
  ghost predicate FieldsAt(d: Bytes, start: nat, e: IndexEntry, raw: nat) {
    && At(d, start, Words(e.stat)) && At(d, start + 40, e.oid)
    && At(d, start + 40 + raw, BigEndian(NewFlags(e), 2))
    && At(d, start + 42 + raw, ExtendedBytes(e.extended))
    && At(d, start + 42 + raw + |ExtendedBytes(e.extended)|, e.path)
    && At(d, start + |Unpadded(e)|, Zeros(Pad(|Unpadded(e)|)))
  }

  lemma EntryFields(d: Bytes, start: nat, e: IndexEntry, raw: nat)
    requires e.Valid(raw) && At(d, start, EntryBytes(e))
    ensures |Unpadded(e)| == 42 + raw + |ExtendedBytes(e.extended)| + |e.path|
    ensures FieldsAt(d, start, e, raw)
  {
    var w, f, x := Words(e.stat), BigEndian(NewFlags(e), 2), ExtendedBytes(e.extended);
    AtSplit(d, start, Unpadded(e), Zeros(Pad(|Unpadded(e)|)));
    AtSplit(d, start, Fixed(e) + x, e.path);
    AtSplit(d, start, Fixed(e), x);
    AtSplit(d, start, w + e.oid, f);
    AtSplit(d, start, w, e.oid);
  }

  lemma {:induction false} ZerosAreZero(n: nat, k: nat)
    requires k < n
    ensures Zeros(n)[k] == 0
    decreases n
  {
    if k > 0 {
      ZerosAreZero(n - 1, k - 1);
    }
  }

  lemma ZerosStand(d: Bytes, pos: nat, n: nat)
    requires At(d, pos, Zeros(n))
    ensures ZerosAt(d, pos, n)
  {
    forall k | pos <= k < pos + n
      ensures d[k] == 0
    {
      ZerosAreZero(n, k - pos);
      assert d[k] == d[pos..pos + n][k - pos];
    }
  }

  lemma PathBytes(d: Bytes, pos: nat, path: Bytes)
    requires At(d, pos, path)
    ensures pos + |path| <= |d| && d[pos..pos + |path|] == path
    ensures forall k :: 0 <= k < |path| ==> d[pos + k] == path[k]
  {
    forall k | 0 <= k < |path|
      ensures d[pos + k] == path[k]
    {
      assert d[pos..pos + |path|][k] == d[pos + k];
    }
  }

  /** A path is read with its padding. */
  lemma PathIsRead(d: Bytes, start: nat, pos: nat, path: Bytes, prev: Bytes)
    requires start <= pos && At(d, pos, path) && At(d, pos + |path|, Zeros(Pad(pos + |path| - start)))
    requires |path| >= LONG_NAME ==> 0 !in path
    ensures var nameLen := if |path| < LONG_NAME then |path| else LONG_NAME;
            pos <= |d| && PaddedPath(d, start, pos, nameLen, prev) == PathRead(path, pos + |path| + Pad(pos + |path| - start), prev)
  {
    var end := pos + |path|;
    PathBytes(d, pos, path);
    ZerosStand(d, end, Pad(end - start));
    hide At;
    assert d[end] == 0;
    if |path| >= LONG_NAME {
      assert forall k :: pos <= k < end ==> d[k] != 0 by {
        forall k | pos <= k < end
          ensures d[k] != 0
        {
          assert d[pos + (k - pos)] == path[k - pos];
        }
      }
      NulIsFound(d, pos, end);
    }
  }

  lemma ExtendedIsRead(d: Bytes, pos: nat, e: IndexEntry, version: nat)
    requires e.flags < 0x1_0000 && (e.extended.With? ==> e.extended.bits < 0x1_0000 && version >= 3)
    requires At(d, pos, ExtendedBytes(e.extended))
    ensures ReadExtended(d, pos, NewFlags(e), version) == ExtendedRead(e.extended, pos + |ExtendedBytes(e.extended)|)
  {
    FlagsOf(e);
    if e.extended.With? {
      Widths();
      NumberAt(d, pos, e.extended.bits, 2);
    }
  }

  lemma FixedIsRead(d: Bytes, start: nat, e: IndexEntry, raw: nat)
    requires e.Valid(raw) && FieldsAt(d, start, e, raw)
    ensures start + 42 + raw <= |d|
    ensures ReadWords(d, start, 10) == e.stat && d[start + 40..start + 40 + raw] == e.oid
    ensures FromBigEndian(d[start + 40 + raw..start + 42 + raw]) == NewFlags(e)
  {
    FlagsOf(e);
    WordsAreRead(d, start, e.stat);
    Widths();
    NumberAt(d, start + 40 + raw, NewFlags(e), 2);
  }

  /** An index of this version can hold the entry. */
  predicate Fits(e: IndexEntry, version: nat, raw: nat) {
    e.Valid(raw) && (version == 2 || version == 3) && (e.extended.With? ==> version == 3)
  }

  /** An entry is read back with its flags recomputed. */
  lemma EntryIsRead(d: Bytes, start: nat, e: IndexEntry, version: nat, raw: nat, prev: Bytes)
    requires Fits(e, version, raw) && Readable(e) && At(d, start, EntryBytes(e))
    ensures ReadEntry(d, start, version, raw, prev) == EntryRead(Normalized(e), start + |EntryBytes(e)|, prev)
  {
    hide At, Words, BigEndian, FromBigEndian, PaddedPath, ReadWords, ReadExtended, NewFlags, Unpadded, Zeros, ExtendedBytes, Pad,
      ReadEntry, EntryBytes, Readable, FieldsAt;
    var p := start + 42 + raw;
    EntryFields(d, start, e, raw);
    NameLength(e);
    FixedIsRead(d, start, e, raw);
    PathFollows(d, start, e, raw, prev, version);
    FieldsMakeEntry(d, start, e, version, raw, prev, p + |ExtendedBytes(e.extended)|);
  }

  /** What follows the fixed fields is read. */
  lemma PathFollows(d: Bytes, start: nat, e: IndexEntry, raw: nat, prev: Bytes, version: nat)
    requires e.Valid(raw) && Readable(e) && FieldsAt(d, start, e, raw) && (e.extended.With? ==> version == 3)
    requires |Unpadded(e)| == 42 + raw + |ExtendedBytes(e.extended)| + |e.path|
    ensures var p := start + 42 + raw;
            var q := p + |ExtendedBytes(e.extended)|;
            && ReadExtended(d, p, NewFlags(e), version) == ExtendedRead(e.extended, q) && q <= |d|
            && PaddedPath(d, start, q, if |e.path| < LONG_NAME then |e.path| else LONG_NAME, prev)
               == PathRead(e.path, start + |EntryBytes(e)|, prev)
  {
    hide At, Words, BigEndian, FromBigEndian, PaddedPath, ReadWords, ReadExtended, NewFlags, Unpadded, Zeros, ExtendedBytes, Pad;
    ExtendedIsRead(d, start + 42 + raw, e, version);
    PathIsRead(d, start, start + 42 + raw + |ExtendedBytes(e.extended)|, e.path, prev);
  }

  lemma FieldsMakeEntry(d: Bytes, start: nat, e: IndexEntry, version: nat, raw: nat, prev: Bytes, q: nat)
    requires start + 42 + raw <= |d| && start <= q <= |d| && (version == 2 || version == 3)
    requires ReadWords(d, start, 10) == e.stat && d[start + 40..start + 40 + raw] == e.oid
    requires FromBigEndian(d[start + 40 + raw..start + 42 + raw]) == NewFlags(e)
    requires ReadExtended(d, start + 42 + raw, NewFlags(e), version) == ExtendedRead(e.extended, q)
    requires PaddedPath(d, start, q, NewFlags(e) % 0x1000, prev) == PathRead(e.path, start + |EntryBytes(e)|, prev)
    ensures ReadEntry(d, start, version, raw, prev) == EntryRead(Normalized(e), start + |EntryBytes(e)|, prev)
  {
    hide FromBigEndian, PaddedPath, ReadWords, ReadExtended, NewFlags, EntryBytes;
  }

  // ---- all entries ----

  /** The entry can be written, and the version has room for what it needs. */
  predicate AllFit(es: seq<IndexEntry>, version: nat, raw: nat) {
    es != [] ==> Fits(es[0], version, raw) && AllFit(es[1..], version, raw)
  }

  predicate AllReadable(es: seq<IndexEntry>) {
    es != [] ==> Readable(es[0]) && AllReadable(es[1..])
  }

  lemma EntriesSplit(d: Bytes, pos: nat, es: seq<IndexEntry>)
    requires es != [] && At(d, pos, EntriesBytes(es))
    ensures At(d, pos, EntryBytes(es[0])) && At(d, pos + |EntryBytes(es[0])|, EntriesBytes(es[1..]))
    ensures |EntriesBytes(es)| == |EntryBytes(es[0])| + |EntriesBytes(es[1..])|
  {
    hide At, EntryBytes;
    AtSplit(d, pos, EntryBytes(es[0]), EntriesBytes(es[1..]));
  }

  lemma NothingToRead(d: Bytes, pos: nat, version: nat, raw: nat, prev: Bytes)
    ensures ReadEntries(d, pos, version, raw, prev, 0) == EntriesRead([], pos)
    ensures NormalizedAll([]) == [] && EntriesBytes([]) == []
  {
  }

  lemma NormalizedFirst(es: seq<IndexEntry>)
    requires es != []
    ensures [Normalized(es[0])] + NormalizedAll(es[1..]) == NormalizedAll(es)
  {
  }

  lemma FirstThenRest(d: Bytes, pos: nat, version: nat, raw: nat, prev: Bytes, count: nat, e: IndexEntry, next: nat)
    requires count > 0 && ReadEntry(d, pos, version, raw, prev) == EntryRead(e, next, prev)
    ensures ReadEntries(d, pos, version, raw, prev, count) == WithEntry(e, ReadEntries(d, next, version, raw, prev, count - 1))
  {
    hide ReadEntry;
  }

  lemma {:induction false} EntriesAreRead(d: Bytes, pos: nat, es: seq<IndexEntry>, version: nat, raw: nat, prev: Bytes)
    requires AllFit(es, version, raw) && AllReadable(es) && At(d, pos, EntriesBytes(es))
    ensures ReadEntries(d, pos, version, raw, prev, |es|) == EntriesRead(NormalizedAll(es), pos + |EntriesBytes(es)|)
    decreases |es|
  {
    hide At, EntryBytes, ReadEntry, Readable, Normalized, ReadEntries, Fits, EntriesBytes, NormalizedAll;
    if es == [] {
      NothingToRead(d, pos, version, raw, prev);
    } else {
      var next := pos + |EntryBytes(es[0])|;
      EntriesSplit(d, pos, es);
      NormalizedFirst(es);
      EntryIsRead(d, pos, es[0], version, raw, prev);
      FirstThenRest(d, pos, version, raw, prev, |es|, Normalized(es[0]), next);
      EntriesAreRead(d, next, es[1..], version, raw, prev);
    }
  }

  lemma PathIsCut(d: Bytes, start: nat, pos: nat, path: Bytes, prev: Bytes)
    requires start <= pos && At(d, pos, path) && 0 in path
    ensures pos <= |d|
    ensures var r := PaddedPath(d, start, pos, LONG_NAME, prev); r.PathRead? ==> r.path != path
  {
    PathBytes(d, pos, path);
    var k :| 0 <= k < |path| && path[k] == 0;
    assert FindNul(d, pos) <= pos + k;
  }

  /** The path of an entry comes from behind the fixed fields and the extended flags. */
  lemma PathOfEntry(d: Bytes, start: nat, version: nat, raw: nat, prev: Bytes, flags: nat, x: Extended, q: nat)
    requires start + 42 + raw <= |d| && (version == 2 || version == 3)
    requires FromBigEndian(d[start + 40 + raw..start + 42 + raw]) == flags
    requires ReadExtended(d, start + 42 + raw, flags, version) == ExtendedRead(x, q) && start <= q <= |d|
    ensures var r := ReadEntry(d, start, version, raw, prev);
            r.EntryRead? ==> PaddedPath(d, start, q, flags % 0x1000, prev) == PathRead(r.entry.path, r.end, r.prev)
  {
    hide FromBigEndian, PaddedPath, ReadWords, ReadExtended;
  }

  /** A long path with a NUL is not read back. */
  lemma LongPathIsCut(d: Bytes, start: nat, e: IndexEntry, version: nat, raw: nat, prev: Bytes)
    requires Fits(e, version, raw) && !Readable(e) && At(d, start, EntryBytes(e))
    ensures var r := ReadEntry(d, start, version, raw, prev); r.EntryRead? ==> r.entry.path != e.path
  {
    hide At, Words, BigEndian, FromBigEndian, PaddedPath, ReadWords, ReadExtended, NewFlags, Unpadded, Zeros, ExtendedBytes, Pad,
      ReadEntry, EntryBytes;
    var q := start + 42 + raw + |ExtendedBytes(e.extended)|;
    EntryFields(d, start, e, raw);
    NameLength(e);
    FixedIsRead(d, start, e, raw);
    ExtendedIsRead(d, start + 42 + raw, e, version);
    PathIsCut(d, start, q, e.path, prev);
    PathOfEntry(d, start, version, raw, prev, NewFlags(e), e.extended, q);
  }

  /** Some entry is not read back as it should be, if any is read. */
  ghost predicate Misread(r: EntriesRead, es: seq<IndexEntry>) {
    r.EntriesRead? ==> r.entries != NormalizedAll(es)
  }

  lemma {:induction false} SomePathIsCut(d: Bytes, pos: nat, es: seq<IndexEntry>, version: nat, raw: nat, prev: Bytes)
    requires AllFit(es, version, raw) && !AllReadable(es) && At(d, pos, EntriesBytes(es))
    ensures Misread(ReadEntries(d, pos, version, raw, prev, |es|), es)
    decreases |es|
  {
    hide At, EntryBytes, ReadEntry, Readable, EntriesBytes, Normalized, ReadEntries, Misread, NormalizedAll, Fits;
    var next := pos + |EntryBytes(es[0])|;
    EntriesSplit(d, pos, es);
    if Readable(es[0]) {
      EntryIsRead(d, pos, es[0], version, raw, prev);
      FirstThenRest(d, pos, version, raw, prev, |es|, Normalized(es[0]), next);
      SomePathIsCut(d, next, es[1..], version, raw, prev);
      MisreadRest(ReadEntries(d, next, version, raw, prev, |es| - 1), es);
    } else {
      LongPathIsCut(d, pos, es[0], version, raw, prev);
      MisreadFirst(d, pos, es, version, raw, prev);
    }
  }

  lemma MisreadRest(rest: EntriesRead, es: seq<IndexEntry>)
    requires es != [] && Misread(rest, es[1..])
    ensures Misread(WithEntry(Normalized(es[0]), rest), es)
  {
    if rest.EntriesRead? {
      DifferentTail(Normalized(es[0]), rest.entries, NormalizedAll(es[1..]));
    }
  }

  lemma MisreadFirst(d: Bytes, pos: nat, es: seq<IndexEntry>, version: nat, raw: nat, prev: Bytes)
    requires es != []
    requires var r := ReadEntry(d, pos, version, raw, prev); r.EntryRead? ==> r.entry.path != es[0].path
    ensures Misread(ReadEntries(d, pos, version, raw, prev, |es|), es)
  {
    hide ReadEntry;
    var r := ReadEntries(d, pos, version, raw, prev, |es|);
    if r.EntriesRead? {
      assert r.entries[0] == ReadEntry(d, pos, version, raw, prev).entry;
      assert NormalizedAll(es)[0].path == es[0].path;
    }
  }

  lemma DifferentTail(e: IndexEntry, one: seq<IndexEntry>, two: seq<IndexEntry>)
    requires one != two
    ensures [e] + one != [e] + two
  {
    assert ([e] + one)[1..] == one && ([e] + two)[1..] == two;
  }

  // ---- extensions ----

  lemma ExtensionAt(d: Bytes, pos: nat, x: Extension)
    requires |x.signature| == 4 && |x.data| < 0x1_0000_0000 && At(d, pos, ExtensionBytes(x))
    ensures pos + 8 + |x.data| <= |d| && d[pos..pos + 4] == x.signature && d[pos + 8..pos + 8 + |x.data|] == x.data
    ensures FromBigEndian(d[pos + 4..pos + 8]) == |x.data|
  {
    hide BigEndian, FromBigEndian;
    AtSplit(d, pos, x.signature + BigEndian(|x.data|, 4), x.data);
    AtSplit(d, pos, x.signature, BigEndian(|x.data|, 4));
    Widths();
    NumberAt(d, pos + 4, |x.data|, 4);
  }

  lemma {:induction false} ExtensionsAreRead(d: Bytes, pos: nat, xs: seq<Extension>, contentEnd: nat)
    requires AllExtensionsValid(xs) && At(d, pos, ExtensionsBytes(xs)) && pos + |ExtensionsBytes(xs)| == contentEnd <= |d|
    ensures ReadExtensions(d, pos, contentEnd) == ExtensionsRead(xs)
    decreases |xs|
  {
    if xs != [] {
      var x := xs[0];
      AtSplit(d, pos, ExtensionBytes(x), ExtensionsBytes(xs[1..]));
      ExtensionAt(d, pos, x);
      hide At, BigEndian, FromBigEndian;
      ExtensionsAreRead(d, pos + |ExtensionBytes(x)|, xs[1..], contentEnd);
      assert xs == [x] + xs[1..];
    }
  }

  // ---- sorting ----

  lemma PrecedesIsTransitive(a: IndexEntry, b: IndexEntry, c: IndexEntry)
    requires !Precedes(b, a) && !Precedes(c, b)
    ensures !Precedes(c, a)
  {
    if Precedes(c, a) {
      if a.path != b.path {
        BytesLessIsTotal(b.path, a.path);
      }
      if b.path != c.path {
        BytesLessIsTotal(c.path, b.path);
      }
      if BytesLess(a.path, b.path) && BytesLess(b.path, c.path) {
        BytesLessIsTransitive(a.path, b.path, c.path);
      }
      BytesLessIsStrict(a.path);
      if BytesLess(c.path, a.path) && BytesLess(a.path, c.path) {
        BytesLessIsTransitive(a.path, c.path, a.path);
      }
    }
  }

  lemma NotBothPrecede(a: IndexEntry, b: IndexEntry)
    requires Precedes(a, b)
    ensures !Precedes(b, a)
  {
    BytesLessIsStrict(a.path);
    if BytesLess(a.path, b.path) && BytesLess(b.path, a.path) {
      BytesLessIsTransitive(a.path, b.path, a.path);
    }
  }

  lemma {:induction false} InsertKeeps(es: seq<IndexEntry>, e: IndexEntry)
    requires Sorted(es)
    ensures Sorted(Insert(es, e)) && multiset(Insert(es, e)) == multiset(es) + multiset{e}
    decreases |es|
  {
    if es == [] || !Precedes(e, es[|es| - 1]) {
      forall i | 0 <= i < |es|
        ensures !Precedes(e, es[i])
      {
        if i < |es| - 1 {
          PrecedesIsTransitive(es[i], es[|es| - 1], e);
        }
      }
    } else {
      var rest, last := es[..|es| - 1], es[|es| - 1];
      InsertKeeps(rest, e);
      NotBothPrecede(e, last);
      assert es == rest + [last];
      LastStaysLast(rest, last, e, Insert(rest, e));
    }
  }

  lemma LastStaysLast(rest: seq<IndexEntry>, last: IndexEntry, e: IndexEntry, r: seq<IndexEntry>)
    requires Sorted(rest + [last]) && Sorted(r) && multiset(r) == multiset(rest) + multiset{e} && !Precedes(last, e)
    ensures Sorted(r + [last])
  {
    hide Precedes;
    forall i | 0 <= i < |r|
      ensures !Precedes(last, r[i])
    {
      assert r[i] in multiset(r);
      if r[i] != e {
        assert r[i] in rest;
        var j :| 0 <= j < |rest| && rest[j] == r[i];
        assert (rest + [last])[j] == r[i] && (rest + [last])[|rest|] == last;
      }
    }
  }

  /** What is written is sorted by path and stage, and the same entries. */
  lemma {:induction false} SortSorts(es: seq<IndexEntry>)
    ensures Sorted(Sort(es)) && multiset(Sort(es)) == multiset(es) && |Sort(es)| == |es|
    decreases |es|
  {
    if es == [] {
      assert Sort(es) == [];
    } else {
      var rest, last := es[..|es| - 1], es[|es| - 1];
      SortStep(es, rest, last);
      hide Sorted, Insert, Sort;
      SortSorts(rest);
      InsertKeeps(Sort(rest), last);
    }
    hide Sorted, Insert, Sort;
    SameSize(Sort(es), es);
  }

  lemma SortStep(es: seq<IndexEntry>, rest: seq<IndexEntry>, last: IndexEntry)
    requires es != [] && rest == es[..|es| - 1] && last == es[|es| - 1]
    ensures Sort(es) == Insert(Sort(rest), last) && multiset(es) == multiset(rest) + multiset{last}
  {
    hide Insert;
    assert es == rest + [last];
  }

  lemma SameSize(a: seq<IndexEntry>, b: seq<IndexEntry>)
    requires multiset(a) == multiset(b)
    ensures |a| == |b|
  {
    assert |a| == |multiset(a)| == |multiset(b)| == |b|;
  }

  // ---- the round trip ----

  /** An index that can be serialized. */
  ghost predicate Valid(ix: Index, algo: HashAlgo) {
    AllValid(ix.entries, RawLen(algo)) && |ix.entries| < 0x1_0000_0000 && AllExtensionsValid(ix.extensions)
  }

  /** No path of 4095 bytes or more has a NUL in it. */
  ghost predicate NoNulInLongPaths(es: seq<IndexEntry>) {
    forall k :: 0 <= k < |es| ==> Readable(es[k])
  }

  /** What a serialized index is read back as. */
  function ReadBack(ix: Index): Index {
    Index(VersionFor(ix.entries), NormalizedAll(Sort(ix.entries)), ix.extensions)
  }

  lemma {:induction false} EntriesFit(es: seq<IndexEntry>, version: nat, raw: nat)
    requires forall k :: 0 <= k < |es| ==> Fits(es[k], version, raw)
    ensures AllFit(es, version, raw)
    decreases |es|
  {
    if es != [] {
      EntriesFit(es[1..], version, raw);
    }
  }

  lemma {:induction false} EntriesReadable(es: seq<IndexEntry>)
    ensures AllReadable(es) <==> NoNulInLongPaths(es)
    decreases |es|
  {
    if es != [] {
      EntriesReadable(es[1..]);
      if AllReadable(es) {
        assert forall k :: 0 < k < |es| ==> es[k] == es[1..][k - 1];
      }
    }
  }

  lemma SortedFits(es: seq<IndexEntry>, raw: nat)
    requires AllValid(es, raw)
    ensures AllFit(Sort(es), VersionFor(es), raw)
    ensures AllReadable(Sort(es)) <==> NoNulInLongPaths(es)
  {
    SortSorts(es);
    var sorted := Sort(es);
    SameElements(sorted, es);
    forall k | 0 <= k < |sorted|
      ensures Fits(sorted[k], VersionFor(es), raw)
    {
      assert sorted[k] in es;
    }
    EntriesFit(sorted, VersionFor(es), raw);
    EntriesReadable(sorted);
    hide Readable, Sort;
    assert NoNulInLongPaths(sorted) <==> forall e :: e in sorted ==> Readable(e);
    assert NoNulInLongPaths(es) <==> forall e :: e in es ==> Readable(e);
  }

  lemma SameElements(a: seq<IndexEntry>, b: seq<IndexEntry>)
    requires multiset(a) == multiset(b)
    ensures forall e :: e in a <==> e in b
  {
    assert forall e :: e in a <==> e in multiset(a);
    assert forall e :: e in b <==> e in multiset(b);
  }

  /** Where the parts of a serialized index stand. */
  ghost predicate PartsAt(d: Bytes, ix: Index, sum: Bytes) {
    var es, xs := EntriesBytes(Sort(ix.entries)), ExtensionsBytes(ix.extensions);
    && |d| == 12 + |es| + |xs| + |sum| && d[..4] == DIRC
    && At(d, 4, BigEndian(VersionFor(ix.entries), 4)) && At(d, 8, BigEndian(|ix.entries|, 4))
    && At(d, 12, es) && At(d, 12 + |es|, xs)
    && d[..|d| - |sum|] == Content(ix) && d[|d| - |sum|..] == sum
  }

  lemma SerializedParts(ix: Index, sum: Bytes)
    ensures PartsAt(Content(ix) + sum, ix, sum)
  {
    hide Sort, EntriesBytes, ExtensionsBytes, BigEndian, VersionFor;
    var v, n := BigEndian(VersionFor(ix.entries), 4), BigEndian(|ix.entries|, 4);
    var es, xs := EntriesBytes(Sort(ix.entries)), ExtensionsBytes(ix.extensions);
    var d := Content(ix) + sum;
    assert At(d, 0, d);
    AtSplit(d, 0, Content(ix), sum);
    AtSplit(d, 0, DIRC + v + n + es, xs);
    AtSplit(d, 0, DIRC + v + n, es);
    AtSplit(d, 0, DIRC + v, n);
    AtSplit(d, 0, DIRC, v);
  }

  lemma HeaderIsRead(d: Bytes, ix: Index, sum: Bytes)
    requires PartsAt(d, ix, sum) && |ix.entries| < 0x1_0000_0000
    ensures |d| >= 12 + |sum| && d[..4] == DIRC && d[..|d| - |sum|] == Content(ix) && d[|d| - |sum|..] == sum
    ensures FromBigEndian(d[4..8]) == VersionFor(ix.entries) && FromBigEndian(d[8..12]) == |ix.entries|
    ensures 2 <= VersionFor(ix.entries) <= 4
  {
    hide Sort, EntriesBytes, ExtensionsBytes, Content;
    Widths();
    NumberAt(d, 4, VersionFor(ix.entries), 4);
    NumberAt(d, 8, |ix.entries|, 4);
  }

  /** Reading goes on behind the header and the checksum. */
  lemma HeaderThenEntries(d: Bytes, ix: Index, algo: HashAlgo, hash: Bytes -> Bytes)
    requires |hash(Content(ix))| == RawLen(algo) && |ix.entries| < 0x1_0000_0000
    requires PartsAt(d, ix, hash(Content(ix)))
    ensures var r := ReadEntries(d, 12, VersionFor(ix.entries), RawLen(algo), [], |ix.entries|);
            var contentEnd := |d| - RawLen(algo);
            Parsed(d, algo, hash) ==
              match r
              case NoEntries(error) => Failed(error)
              case EntriesRead(entries, pos) =>
                match ReadExtensions(d, pos, contentEnd)
                case NoExtensions(error) => Failed(error)
                case ExtensionsRead(extensions) => Ok(Index(VersionFor(ix.entries), entries, extensions))
  {
    hide ReadEntries, ReadExtensions, FromBigEndian, Content, PartsAt, VersionFor;
    HeaderIsRead(d, ix, hash(Content(ix)));
  }

  lemma ReadableIsReadBack(ix: Index, algo: HashAlgo, hash: Bytes -> Bytes)
    requires Valid(ix, algo) && |hash(Content(ix))| == RawLen(algo) && AllReadable(Sort(ix.entries))
    ensures Parsed(Serialized(ix, hash), algo, hash) == Ok(ReadBack(ix))
  {
    var raw, sum, d := RawLen(algo), hash(Content(ix)), Serialized(ix, hash);
    var sorted := Sort(ix.entries);
    hide Parsed, Content, Sort, Sorted, EntriesBytes, ExtensionsBytes, ReadEntries, ReadExtensions, VersionFor, AllFit, AllReadable,
      BigEndian, NormalizedAll, At;
    SerializedParts(ix, sum);
    HeaderThenEntries(d, ix, algo, hash);
    SortedFits(ix.entries, raw);
    SortSorts(ix.entries);
    EntriesAreRead(d, 12, sorted, VersionFor(ix.entries), raw, []);
    ExtensionsAreRead(d, 12 + |EntriesBytes(sorted)|, ix.extensions, |d| - raw);
  }

  lemma UnreadableIsNotReadBack(ix: Index, algo: HashAlgo, hash: Bytes -> Bytes)
    requires Valid(ix, algo) && |hash(Content(ix))| == RawLen(algo) && !AllReadable(Sort(ix.entries))
    ensures Parsed(Serialized(ix, hash), algo, hash) != Ok(ReadBack(ix))
  {
    var raw, sum, d := RawLen(algo), hash(Content(ix)), Serialized(ix, hash);
    hide Parsed, Content, Sort, Sorted, EntriesBytes, ExtensionsBytes, ReadEntries, ReadExtensions, VersionFor, AllFit, AllReadable,
      BigEndian, NormalizedAll, At;
    SerializedParts(ix, sum);
    HeaderThenEntries(d, ix, algo, hash);
    SortedFits(ix.entries, raw);
    SortSorts(ix.entries);
    SomePathIsCut(d, 12, Sort(ix.entries), VersionFor(ix.entries), raw, []);
  }

  /** For every index: what was serialized is read back, with entries sorted by path and stage
      and flags recomputed, if and only if no long path holds a NUL. */
  lemma SerializedIsReadBack(ix: Index, algo: HashAlgo, hash: Bytes -> Bytes)
    requires Valid(ix, algo) && |hash(Content(ix))| == RawLen(algo)
    ensures Parsed(Serialized(ix, hash), algo, hash) == Ok(ReadBack(ix)) <==> NoNulInLongPaths(ix.entries)
  {
    hide Parsed, Serialized, Content, Sort, AllReadable, NoNulInLongPaths;
    SortedFits(ix.entries, RawLen(algo));
    if AllReadable(Sort(ix.entries)) {
      ReadableIsReadBack(ix, algo, hash);
    } else {
      UnreadableIsNotReadBack(ix, algo, hash);
    }
  }

  /** 4095 bytes with a NUL behind the first. */
  function NulPath(): (path: Bytes)
    ensures |path| == LONG_NAME && path[1] == 0
  {
    [97] + Zeros(LONG_NAME - 1)
  }

  /** An index with this one path is not read back. */
  lemma NulInLongPathIsLost(algo: HashAlgo, hash: Bytes -> Bytes)
    requires forall d :: |hash(d)| == RawLen(algo)
    ensures var e := IndexEntry([0, 0, 0, 0, 0, 0, 0, 0, 0, 0], Zeros(RawLen(algo)), 0, Plain, NulPath());
            var ix := Index(2, [e], []);
            Valid(ix, algo) && Parsed(Serialized(ix, hash), algo, hash) != Ok(ReadBack(ix))
  {
    var e := IndexEntry([0, 0, 0, 0, 0, 0, 0, 0, 0, 0], Zeros(RawLen(algo)), 0, Plain, NulPath());
    var ix := Index(2, [e], []);
    assert NulPath()[1] in NulPath();
    assert !Readable([e][0]);
    hide Parsed, Serialized, Content, NulPath, Zeros;
    SerializedIsReadBack(ix, algo, hash);
  }

  // ---- a fixed point ----

  lemma {:induction false} NormalizedAt(es: seq<IndexEntry>, k: nat)
    requires k < |es|
    ensures NormalizedAll(es)[k] == Normalized(es[k])
    decreases |es|
  {
    if k > 0 {
      NormalizedAt(es[1..], k - 1);
    }
  }

  /** Sorted entries stay as they are. */
  lemma {:induction false} SortOfSorted(es: seq<IndexEntry>)
    requires Sorted(es)
    ensures Sort(es) == es
    decreases |es|
  {
    if es != [] {
      var rest, last := es[..|es| - 1], es[|es| - 1];
      SortOfSorted(rest);
      assert es == rest + [last];
      assert rest != [] ==> !Precedes(last, rest[|rest| - 1]);
    }
  }

  lemma NormalizedStaysSorted(es: seq<IndexEntry>, raw: nat)
    requires Sorted(es) && AllValid(es, raw)
    ensures Sorted(NormalizedAll(es))
  {
    var ns := NormalizedAll(es);
    hide NormalizedAll, NewFlags;
    forall i, j | 0 <= i < j < |ns|
      ensures !Precedes(ns[j], ns[i])
    {
      NormalizedAt(es, i);
      NormalizedAt(es, j);
      FlagsOf(es[i]);
      FlagsOf(es[j]);
    }
  }

  lemma NormalizedTwice(e: IndexEntry)
    requires e.flags < 0x1_0000
    ensures EntryBytes(Normalized(e)) == EntryBytes(e)
  {
    FlagsTwice(e);
    hide NewFlags, Words, BigEndian, Zeros, Pad;
  }

  lemma FlagsTwice(e: IndexEntry)
    requires e.flags < 0x1_0000
    ensures NewFlags(Normalized(e)) == NewFlags(e)
  {
    FlagsOf(e);
    FlagsOf(Normalized(e));
    hide NewFlags;
    FlagsDetermined(NewFlags(Normalized(e)), NewFlags(e));
  }

  lemma FlagsDetermined(x: nat, y: nat)
    requires x < 0x1_0000 && y < 0x1_0000
    requires x % 0x1000 == y % 0x1000 && x / 0x1000 % 4 == y / 0x1000 % 4
    requires x / 0x4000 % 2 == y / 0x4000 % 2 && x / 0x8000 == y / 0x8000
    ensures x == y
  {
    HighBits(x);
    HighBits(y);
  }

  lemma HighBits(x: nat)
    requires x < 0x1_0000
    ensures x == 0x1000 * (8 * (x / 0x8000) + 4 * (x / 0x4000 % 2) + x / 0x1000 % 4) + x % 0x1000
  {
    var p := x / 0x1000;
    assert p < 16 && x / 0x4000 == p / 4 && x / 0x8000 == p / 8;
    assert p == 8 * (p / 8) + 4 * (p / 4 % 2) + p % 4;
  }

  lemma {:induction false} NormalizedBytes(es: seq<IndexEntry>, raw: nat)
    requires AllValid(es, raw)
    ensures EntriesBytes(NormalizedAll(es)) == EntriesBytes(es)
    decreases |es|
  {
    if es != [] {
      hide EntryBytes, Normalized;
      NormalizedTwice(es[0]);
      NormalizedBytes(es[1..], raw);
      assert NormalizedAll(es)[1..] == NormalizedAll(es[1..]);
    }
  }

  lemma SameVersion(es: seq<IndexEntry>)
    ensures VersionFor(NormalizedAll(Sort(es))) == VersionFor(es)
  {
    SortSorts(es);
    var sorted := Sort(es);
    SameElements(sorted, es);
    forall k | 0 <= k < |sorted|
      ensures NormalizedAll(sorted)[k].extended == sorted[k].extended
    {
      NormalizedAt(sorted, k);
    }
    hide Sort, NormalizedAll;
    if AnyExtended(es) {
      var k :| 0 <= k < |es| && es[k].extended.With?;
      assert es[k] in sorted;
    }
    if AnyExtended(NormalizedAll(sorted)) {
      var k :| 0 <= k < |sorted| && NormalizedAll(sorted)[k].extended.With?;
      assert sorted[k] in es;
    }
  }

  lemma SortedValid(es: seq<IndexEntry>, raw: nat)
    requires AllValid(es, raw)
    ensures AllValid(Sort(es), raw)
  {
    SortSorts(es);
    SameElements(Sort(es), es);
    forall k | 0 <= k < |Sort(es)|
      ensures Sort(es)[k].Valid(raw)
    {
      assert Sort(es)[k] in es;
    }
  }

  /** Serializing what was read back gives the same bytes. */
  lemma SerializedTwice(ix: Index, algo: HashAlgo, hash: Bytes -> Bytes)
    requires Valid(ix, algo)
    ensures Serialized(ReadBack(ix), hash) == Serialized(ix, hash)
  {
    var raw, sorted := RawLen(algo), Sort(ix.entries);
    SortSorts(ix.entries);
    SortedValid(ix.entries, raw);
    NormalizedStaysSorted(sorted, raw);
    SortOfSorted(NormalizedAll(sorted));
    NormalizedBytes(sorted, raw);
    SameVersion(ix.entries);
  }
}