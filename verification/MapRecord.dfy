/** Records of the object map and their recovery (crates/alt-odb/src/map.rs).

    The file is a header and a row of records of fixed length, each with a checksum. Wherever
    the file is cut off, opening it recovers exactly the records that are whole. */
module MapRecord {
  import opened Endian
  import opened Objects
  import opened Octets

  /** A checksum of eight bytes. */
  type Sum = s: Bytes | |s| == 8 witness [0, 0, 0, 0, 0, 0, 0, 0]

  type Checksum = Bytes -> Sum

  const REC_LEN := 82

  const CHECKED_LEN := 74

  const HEADER: Bytes := [65, 76, 84, 71, 1]

  datatype MapEntry = MapEntry(git: ObjectId, alt: Bytes, kind: ObjectKind, size: nat) {
    predicate Valid() {
      git.Valid() && |alt| == 32 && size < 0x1_0000_0000_0000_0000
    }
  }

  datatype MapError = BadHeader | UnsupportedVersion | CorruptRecord | BadAlgo | BadKind

  datatype ParsedEntry = Entry(entry: MapEntry) | NoEntry(error: MapError)

  // ---- one record ----

  function AlgoByte(algo: HashAlgo): Byte {
    match algo
    case Sha1 => 1
    case Sha256 => 2
  }

  function KindByte(kind: ObjectKind): Byte {
    match kind
    case Blob => 0
    case Tree => 1
    case Commit => 2
    case Tag => 3
  }

  /** The git id in 32 bytes. */
  function Padded(raw: Bytes): (b: Bytes)
    requires |raw| <= 32
    ensures |b| == 32
  {
    raw + Zeros(32 - |raw|)
  }

  /** The part of a record that its checksum covers. */
  function Body(e: MapEntry): (b: Bytes)
    requires e.Valid()
    ensures |b| == CHECKED_LEN
  {
    [AlgoByte(e.git.algo)] + Padded(e.git.raw) + e.alt + [KindByte(e.kind)] + LittleEndian(e.size, 8)
  }

  function Encoded(check: Checksum, e: MapEntry): (b: Bytes)
    requires e.Valid()
    ensures |b| == REC_LEN
  {
    Body(e) + check(Body(e))
  }

  predicate ChecksumFits(check: Checksum, rec: Bytes)
    requires |rec| == REC_LEN
  {
    check(rec[..CHECKED_LEN]) == rec[CHECKED_LEN..]
  }

  function Parsed(rec: Bytes): ParsedEntry
    requires |rec| == REC_LEN
  {
    if rec[0] != 1 && rec[0] != 2 then NoEntry(BadAlgo)
    else if rec[65] > 3 then NoEntry(BadKind)
    else
      var algo := if rec[0] == 1 then Sha1 else Sha256;
      var kind := if rec[65] == 0 then Blob else if rec[65] == 1 then Tree else if rec[65] == 2 then Commit else Tag;
      Entry(MapEntry(ObjectId(algo, rec[1..1 + RawLen(algo)]), rec[33..65], kind, FromLittleEndian(rec[66..74])))
  }

  /** A record is read back as the entry that was written, and its checksum fits. */
  lemma EntryRoundTrip(check: Checksum, e: MapEntry)
    requires e.Valid()
    ensures ChecksumFits(check, Encoded(check, e))
    ensures Parsed(Encoded(check, e)) == Entry(e)
  {
    var rec := Encoded(check, e);
    RecordFields(check, e);
    Widths();
    LittleEndianRoundTrip(e.size, 8);
  }

  lemma RecordFields(check: Checksum, e: MapEntry)
    requires e.Valid()
    ensures var rec := Encoded(check, e);
            && rec[..CHECKED_LEN] == Body(e) && rec[CHECKED_LEN..] == check(Body(e))
            && rec[0] == AlgoByte(e.git.algo) && rec[1..1 + |e.git.raw|] == e.git.raw
            && rec[33..65] == e.alt && rec[65] == KindByte(e.kind) && rec[66..74] == LittleEndian(e.size, 8)
  {
    var rec, body := Encoded(check, e), Body(e);
    assert body[1..33] == Padded(e.git.raw) && Padded(e.git.raw)[..|e.git.raw|] == e.git.raw;
    assert body[33..65] == e.alt && body[66..74] == LittleEndian(e.size, 8);
    hide Zeros, Padded, LittleEndian;
    assert rec[1..1 + |e.git.raw|] == body[1..33][..|e.git.raw|];
    assert rec[33..65] == body[33..65] && rec[66..74] == body[66..74];
  }

  /** Writes `bytes` into `rec` from `at` on. */
  method CopyInto(rec: array<Byte>, at: nat, bytes: Bytes)
    requires at + |bytes| <= rec.Length
    modifies rec
    ensures rec[..] == old(rec[..])[..at] + bytes + old(rec[..])[at + |bytes|..]
  {
    ghost var was := rec[..];
    for i := 0 to |bytes|
      invariant forall k :: 0 <= k < rec.Length ==> rec[k] == if at <= k < at + i then bytes[k - at] else was[k]
    {
      rec[at + i] := bytes[i];
    }
    ghost var now := was[..at] + bytes + was[at + |bytes|..];
    assert forall k :: 0 <= k < rec.Length ==> rec[k] == now[k];
  }

  /** `front` is written, and the rest is still zero. */
  ghost predicate Filled(content: Bytes, front: Bytes, rest: nat) {
    content == front + Zeros(rest)
  }

  /** Writes the next field behind `front`. */
  method FillIn(rec: array<Byte>, ghost front: Bytes, at: nat, bytes: Bytes)
    requires at == |front| && at + |bytes| <= rec.Length
    requires Filled(rec[..], front, rec.Length - at)
    modifies rec
    ensures Filled(rec[..], front + bytes, rec.Length - at - |bytes|)
    ensures rec[..at + |bytes|] == front + bytes
  {
    ghost var was, n := rec[..], rec.Length - at;
    ZerosSplit(n, |bytes|);
    CopyInto(rec, at, bytes);
    hide Zeros;
    assert was[..at] == front && was[at..] == Zeros(n);
    assert was[at + |bytes|..] == was[at..][|bytes|..];
  }

  /** Fills in everything but the checksum. */
  method FillBody(rec: array<Byte>, e: MapEntry)
    requires e.Valid() && rec.Length == REC_LEN && Filled(rec[..], [], REC_LEN)
    modifies rec
    ensures Filled(rec[..], Body(e), 8) && rec[..CHECKED_LEN] == Body(e)
  {
    hide Filled, Zeros, Padded, LittleEndian;
    FillIn(rec, [], 0, [AlgoByte(e.git.algo)]);
    ghost var f0: Bytes := [AlgoByte(e.git.algo)];
    assert [] + f0 == f0;
    FillIn(rec, f0, 1, e.git.raw);
    PaddedInside(rec[..], f0, e.git.raw, 81);
    ghost var f1 := f0 + Padded(e.git.raw);
    FillIn(rec, f1, 33, e.alt);
    FillIn(rec, f1 + e.alt, 65, [KindByte(e.kind)]);
    FillIn(rec, f1 + e.alt + [KindByte(e.kind)], 66, LittleEndian(e.size, 8));
  }

  /** Fills a buffer of zeros with the fields of a record. */
  method Encode(check: Checksum, e: MapEntry) returns (rec: array<Byte>)
    requires e.Valid()
    ensures fresh(rec) && rec[..] == Encoded(check, e)
  {
    hide Body, Filled;
    rec := new Byte[REC_LEN](i => 0);
    AllZeros(rec[..]);
    FillBody(rec, e);
    var sum := check(rec[..CHECKED_LEN]);
    FillIn(rec, Body(e), CHECKED_LEN, sum);
  }

  lemma AllZeros(content: Bytes)
    requires forall k :: 0 <= k < |content| ==> content[k] == 0
    ensures Filled(content, [], |content|)
  {
    ZerosAre(content);
    assert [] + Zeros(|content|) == Zeros(|content|);
  }

  /** The padding of an id is part of the zeros. */
  lemma PaddedInside(content: Bytes, front: Bytes, raw: Bytes, n: nat)
    requires |raw| <= 32 <= n && Filled(content, front + raw, n - |raw|)
    ensures Filled(content, front + Padded(raw), n - 32)
  {
    ZerosJoin(32 - |raw|, n - 32);
    hide Zeros;
    var pad, rest := Zeros(32 - |raw|), Zeros(n - 32);
    Regrouped(front, raw, pad + rest);
    Regrouped(raw, pad, rest);
    Regrouped(front, Padded(raw), rest);
  }

  lemma Regrouped(a: Bytes, b: Bytes, c: Bytes)
    ensures a + b + c == a + (b + c)
  {
  }

  lemma {:induction false} ZerosJoin(m: nat, n: nat)
    ensures Zeros(m) + Zeros(n) == Zeros(m + n)
    decreases m
  {
    if m == 0 {
      assert [] + Zeros(n) == Zeros(n);
    } else {
      ZerosJoin(m - 1, n);
      assert [0] + Zeros(m - 1) + Zeros(n) == [0] + (Zeros(m - 1) + Zeros(n));
    }
  }

  lemma {:induction false} ZerosAre(s: Bytes)
    requires forall k :: 0 <= k < |s| ==> s[k] == 0
    ensures s == Zeros(|s|)
    decreases |s|
  {
    if s != [] {
      ZerosAre(s[1..]);
      assert s == [s[0]] + s[1..];
    }
  }

  lemma {:induction false} ZerosSplit(n: nat, k: nat)
    requires k <= n
    ensures Zeros(n)[k..] == Zeros(n - k)
    decreases k
  {
    if k > 0 {
      ZerosSplit(n - 1, k - 1);
      assert Zeros(n)[k..] == Zeros(n)[1..][k - 1..];
    }
  }

  // ---- the whole file ----

  ghost predicate AllValid(es: seq<MapEntry>) {
    forall k :: 0 <= k < |es| ==> es[k].Valid()
  }

  ghost function Records(check: Checksum, es: seq<MapEntry>): (b: Bytes)
    requires AllValid(es)
    ensures |b| == REC_LEN * |es|
  {
    if es == [] then [] else Records(check, es[..|es| - 1]) + Encoded(check, es[|es| - 1])
  }

  ghost function Image(check: Checksum, es: seq<MapEntry>): (b: Bytes)
    requires AllValid(es)
    ensures |b| == |HEADER| + REC_LEN * |es|
  {
    HEADER + Records(check, es)
  }

  /** One record more. */
  lemma ImageGrows(check: Checksum, es: seq<MapEntry>, e: MapEntry)
    requires AllValid(es) && e.Valid()
    ensures AllValid(es + [e]) && Image(check, es + [e]) == Image(check, es) + Encoded(check, e)
  {
    assert (es + [e])[..|es|] == es;
  }

  /** The image of fewer records is a prefix. */
  lemma {:induction false} ImagePrefix(check: Checksum, es: seq<MapEntry>, n: nat)
    requires AllValid(es) && n <= |es|
    ensures Image(check, es)[..|HEADER| + REC_LEN * n] == Image(check, es[..n])
    decreases |es|
  {
    if n == |es| {
      assert es[..n] == es;
    } else {
      var rest := es[..|es| - 1];
      ImagePrefix(check, rest, n);
      assert rest[..n] == es[..n] && rest + [es[|es| - 1]] == es;
      ImageGrows(check, rest, es[|es| - 1]);
      assert Image(check, es)[..|HEADER| + REC_LEN * n] == Image(check, rest)[..|HEADER| + REC_LEN * n];
    }
  }

  /** Record `k` stands where it should. */
  lemma RecordAt(check: Checksum, es: seq<MapEntry>, k: nat)
    requires AllValid(es) && k < |es|
    ensures var at := |HEADER| + REC_LEN * k; Image(check, es)[at..at + REC_LEN] == Encoded(check, es[k])
  {
    var at := |HEADER| + REC_LEN * k;
    ImagePrefix(check, es, k + 1);
    assert es[..k + 1] == es[..k] + [es[k]];
    ImageGrows(check, es[..k], es[k]);
    hide Image;
    var upTo := Image(check, es)[..at + REC_LEN];
    assert upTo == Image(check, es[..k]) + Encoded(check, es[k]);
    assert Image(check, es)[at..at + REC_LEN] == upTo[at..];
  }

  /** The file is the image of the records, with nothing behind them. */
  ghost predicate HoldsOnly(check: Checksum, data: Bytes, es: seq<MapEntry>) {
    AllValid(es) && data == Image(check, es)
  }

  // ---- writing and cutting ----

  /** The file after `bytes` were written at `pos`. Behind the end, zeros fill the gap. */
  function WriteAt(data: Bytes, pos: nat, bytes: Bytes): Bytes {
    if pos > |data| then data + Zeros(pos - |data|) + bytes
    else data[..pos] + bytes + if pos + |bytes| < |data| then data[pos + |bytes|..] else []
  }

  lemma WriteAtEnd(data: Bytes, bytes: Bytes)
    ensures WriteAt(data, |data|, bytes) == data + bytes
  {
    assert data[..|data|] == data;
  }

  /** The file after its length was set. */
  function CutOrPad(data: Bytes, n: nat): (d: Bytes)
    ensures |d| == n
  {
    if n <= |data| then data[..n] else data + Zeros(n - |data|)
  }

  // ---- recovery ----

  datatype Recovery = Recovered(entries: seq<MapEntry>, len: nat) | Broken(error: MapError)

  function Before(e: MapEntry, r: Recovery): Recovery {
    match r
    case Broken(error) => Broken(error)
    case Recovered(entries, len) => Recovered([e] + entries, len)
  }

  /** Reads records from `at` on. A record with a bad checksum ends the file, and if `strict` it
      must be the last one. */
  function Scanned(check: Checksum, data: Bytes, at: nat, strict: bool): (r: Recovery)
    requires at <= |data|
    ensures r.Recovered? ==> at <= r.len <= |data|
    decreases |data| - at
  {
    if at + REC_LEN > |data| then Recovered([], at)
    else
      var rec := data[at..at + REC_LEN];
      if !ChecksumFits(check, rec) then
        if strict && at + REC_LEN != |data| then Broken(CorruptRecord) else Recovered([], at)
      else
        match Parsed(rec)
        case NoEntry(error) => Broken(error)
        case Entry(e) => Before(e, Scanned(check, data, at + REC_LEN, strict))
  }

  function Recover(check: Checksum, data: Bytes): (r: Recovery)
    ensures r.Recovered? ==> r.len <= |data|
  {
    if |data| < |HEADER| then if data == HEADER[..|data|] then Recovered([], |data|) else Broken(BadHeader)
    else if data[..4] != HEADER[..4] then Broken(BadHeader)
    else if data[4] != HEADER[4] then Broken(UnsupportedVersion)
    else Scanned(check, data, |HEADER|, true)
  }

  /** Whole records, and less than one behind them. */
  ghost predicate IsImageWithTail(check: Checksum, data: Bytes, es: seq<MapEntry>)
    requires AllValid(es)
  {
    |Image(check, es)| <= |data| < |Image(check, es)| + REC_LEN && data[..|Image(check, es)|] == Image(check, es)
  }

  /** Entries that were read before a scan. */
  function Prepended(es: seq<MapEntry>, r: Recovery): Recovery {
    match r
    case Broken(error) => Broken(error)
    case Recovered(more, len) => Recovered(es + more, len)
  }

  /** A scan that has read `got` and is at its end. */
  lemma ScannedToEnd(check: Checksum, data: Bytes, at: nat, strict: bool, got: seq<MapEntry>)
    requires at <= |data| < at + REC_LEN
    ensures Prepended(got, Scanned(check, data, at, strict)) == Recovered(got, at)
  {
    assert got + [] == got;
  }

  /** A scan that has read `got` and goes on with one more record. */
  lemma ScannedOn(check: Checksum, data: Bytes, at: nat, strict: bool, got: seq<MapEntry>)
    requires at + REC_LEN <= |data|
    ensures var rec := data[at..at + REC_LEN];
            Prepended(got, Scanned(check, data, at, strict)) ==
              if !ChecksumFits(check, rec) then
                if strict && at + REC_LEN != |data| then Broken(CorruptRecord) else Recovered(got, at)
              else match Parsed(rec)
                case NoEntry(error) => Broken(error)
                case Entry(e) => Prepended(got + [e], Scanned(check, data, at + REC_LEN, strict))
  {
    hide ChecksumFits, Parsed;
    var rec := data[at..at + REC_LEN];
    assert got + [] == got;
    if ChecksumFits(check, rec) && Parsed(rec).Entry? {
      var rest := Scanned(check, data, at + REC_LEN, strict);
      assert rest.Recovered? ==> got + ([Parsed(rec).entry] + rest.entries) == got + [Parsed(rec).entry] + rest.entries;
    }
  }

  lemma RecordIsScanned(check: Checksum, data: Bytes, es: seq<MapEntry>, k: nat, strict: bool)
    requires AllValid(es) && Image(check, es) <= data && k < |es|
    ensures var at := |HEADER| + REC_LEN * k;
            Scanned(check, data, at, strict) == Before(es[k], Scanned(check, data, at + REC_LEN, strict))
  {
    var at := |HEADER| + REC_LEN * k;
    RecordAt(check, es, k);
    EntryRoundTrip(check, es[k]);
    hide Image, Encoded, Parsed, ChecksumFits, AllValid;
    assert data[at..at + REC_LEN] == Image(check, es)[at..at + REC_LEN];
  }

  /** Where a file starts with whole records, a scan reads them and goes on behind them. */
  lemma {:induction false} RecordsAreScanned(check: Checksum, data: Bytes, es: seq<MapEntry>, k: nat, strict: bool)
    requires AllValid(es) && Image(check, es) <= data && k <= |es|
    ensures Scanned(check, data, |HEADER| + REC_LEN * k, strict) ==
              Prepended(es[k..], Scanned(check, data, |HEADER| + REC_LEN * |es|, strict))
    decreases |es| - k
  {
    hide Scanned, Prepended, Before, Image, AllValid;
    if k < |es| {
      RecordIsScanned(check, data, es, k, strict);
      RecordsAreScanned(check, data, es, k + 1, strict);
      PrependedRest(es, k, Scanned(check, data, |HEADER| + REC_LEN * |es|, strict));
    } else {
      assert es[k..] == [];
      PrependedNone(Scanned(check, data, |HEADER| + REC_LEN * |es|, strict));
    }
  }

  lemma PrependedNone(r: Recovery)
    ensures Prepended([], r) == r
  {
    assert r.Recovered? ==> [] + r.entries == r.entries;
  }

  lemma PrependedRest(es: seq<MapEntry>, k: nat, r: Recovery)
    requires k < |es|
    ensures Before(es[k], Prepended(es[k + 1..], r)) == Prepended(es[k..], r)
  {
    assert es[k..] == [es[k]] + es[k + 1..];
    assert r.Recovered? ==> [es[k]] + es[k + 1..] + r.entries == [es[k]] + (es[k + 1..] + r.entries);
  }

  lemma WholeRecordsAreScanned(check: Checksum, data: Bytes, es: seq<MapEntry>, k: nat, strict: bool)
    requires AllValid(es) && IsImageWithTail(check, data, es) && k <= |es|
    ensures Scanned(check, data, |HEADER| + REC_LEN * k, strict) == Recovered(es[k..], |HEADER| + REC_LEN * |es|)
  {
    assert Image(check, es) <= data;
    RecordsAreScanned(check, data, es, k, strict);
    assert es[k..] + [] == es[k..];
  }

  /** Wherever the file is cut off, opening recovers the records that are whole. */
  lemma CutIsRecovered(check: Checksum, es: seq<MapEntry>, cut: nat)
    requires AllValid(es) && cut <= |Image(check, es)|
    ensures var n := (cut - |HEADER|) / REC_LEN;
            Recover(check, Image(check, es)[..cut]) ==
              if cut < |HEADER| then Recovered([], cut) else Recovered(es[..n], |HEADER| + REC_LEN * n)
  {
    var data := Image(check, es)[..cut];
    if cut < |HEADER| {
      assert data == HEADER[..cut];
    } else {
      var n := (cut - |HEADER|) / REC_LEN;
      assert n <= |es|;
      ImagePrefix(check, es, n);
      assert data[..5] == HEADER;
      WholeIsRecovered(check, data, es[..n]);
    }
  }

  lemma WholeHasImage(check: Checksum, es: seq<MapEntry>)
    requires AllValid(es)
    ensures IsImageWithTail(check, Image(check, es), es)
  {
    assert Image(check, es)[..|Image(check, es)|] == Image(check, es);
  }

  /** Opening a file that starts with whole records reads them and goes on behind them. */
  lemma RecordsAreRecovered(check: Checksum, data: Bytes, es: seq<MapEntry>)
    requires AllValid(es) && Image(check, es) <= data
    ensures Recover(check, data) == Prepended(es, Scanned(check, data, |HEADER| + REC_LEN * |es|, true))
  {
    RecordsAreScanned(check, data, es, 0, true);
    assert es[0..] == es;
    assert data[..5] == Image(check, es)[..5] == HEADER;
    assert data[..4] == data[..5][..4] && data[4] == data[..5][4];
  }

  lemma WholeIsRecovered(check: Checksum, data: Bytes, es: seq<MapEntry>)
    requires AllValid(es) && IsImageWithTail(check, data, es)
    ensures Recover(check, data) == Recovered(es, |HEADER| + REC_LEN * |es|)
  {
    hide Image, Recover;
    RecordsAreRecovered(check, data, es);
    assert es + [] == es;
  }

  // ---- holes ----

  /** A record of zeros is not one that was written. */
  lemma ZeroRecord(check: Checksum)
    ensures ChecksumFits(check, Zeros(REC_LEN)) <==> check(Zeros(CHECKED_LEN)) == Zeros(8)
    ensures Parsed(Zeros(REC_LEN)) == NoEntry(BadAlgo)
  {
    ZerosJoin(CHECKED_LEN, 8);
    ZerosJoin(1, REC_LEN - 1);
    hide Zeros;
    assert (Zeros(CHECKED_LEN) + Zeros(8))[..CHECKED_LEN] == Zeros(CHECKED_LEN);
    assert (Zeros(CHECKED_LEN) + Zeros(8))[CHECKED_LEN..] == Zeros(8);
  }

  /** What a scan makes of a hole with something behind it. */
  function MetHole(check: Checksum, at: nat, strict: bool): Recovery {
    if check(Zeros(CHECKED_LEN)) == Zeros(8) then Broken(BadAlgo)
    else if strict then Broken(CorruptRecord)
    else Recovered([], at)
  }

  lemma HoleIsMet(check: Checksum, front: Bytes, gap: nat, behind: Bytes, strict: bool)
    requires gap > 0 && behind != []
    ensures Scanned(check, front + Zeros(REC_LEN * gap) + behind, |front|, strict) == MetHole(check, |front|, strict)
  {
    var data := front + Zeros(REC_LEN * gap) + behind;
    ZerosJoin(REC_LEN, REC_LEN * (gap - 1));
    ZeroRecord(check);
    hide Zeros, ChecksumFits, Parsed;
    assert REC_LEN * gap >= REC_LEN;
    assert data[|front|..|front| + REC_LEN] == Zeros(REC_LEN * gap)[..REC_LEN] == Zeros(REC_LEN);
  }

  /** A file with a hole of records that are missing: it cannot be opened again, and a handle that
      has read less reads up to the hole. */
  lemma HoleBreaksFile(check: Checksum, es: seq<MapEntry>, gap: nat, behind: Bytes, k: nat)
    requires AllValid(es) && gap > 0 && behind != [] && k <= |es|
    ensures var data := Image(check, es) + Zeros(REC_LEN * gap) + behind;
            && Recover(check, data) == Broken(if check(Zeros(CHECKED_LEN)) == Zeros(8) then BadAlgo else CorruptRecord)
            && Scanned(check, data, |HEADER| + REC_LEN * k, false) ==
                 if check(Zeros(CHECKED_LEN)) == Zeros(8) then Broken(BadAlgo) else Recovered(es[k..], |HEADER| + REC_LEN * |es|)
  {
    HoleIsMet(check, Image(check, es), gap, behind, true);
    HoleIsMet(check, Image(check, es), gap, behind, false);
    hide Image, Zeros, Scanned, Recover, AllValid;
    var data := Image(check, es) + Zeros(REC_LEN * gap) + behind;
    RecordsAreRecovered(check, data, es);
    RecordsAreScanned(check, data, es, k, false);
    assert es[k..] + [] == es[k..];
  }

  /** A record that is written by a handle which takes the file to hold `n` records, though it holds
      only `es`. The file can be opened again if and only if the handle is right. */
  lemma AppendBehindHole(check: Checksum, data: Bytes, es: seq<MapEntry>, n: nat, e: MapEntry)
    requires HoldsOnly(check, data, es) && e.Valid() && n >= |es|
    ensures var after := WriteAt(data, |HEADER| + REC_LEN * n, Encoded(check, e));
            && (n == |es| ==> Recover(check, after) == Recovered(es + [e], |after|))
            && (n > |es| ==> Recover(check, after).Broken?)
  {
    hide Image, Encoded, Recover;
    var image := Image(check, es);
    if n == |es| {
      WriteAtEnd(image, Encoded(check, e));
      ImageGrows(check, es, e);
      WholeHasImage(check, es + [e]);
      WholeIsRecovered(check, Image(check, es + [e]), es + [e]);
    } else {
      var gap := n - |es|;
      HoleBreaksFile(check, es, gap, Encoded(check, e), 0);
      assert |HEADER| + REC_LEN * n - |image| == REC_LEN * gap;
    }
  }
}
