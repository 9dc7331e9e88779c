/** The index that is built over a resolved pack serves its reads (crates/alt-git-pack/src/index_pack.rs,
    idx.rs, lib.rs).

    Indexing resolves every entry, writes the ids with the offsets of the entries and reads them
    back by binary search. What a lookup in that file answers is an index that names exactly the
    resolved objects. Where an object is stored twice, the search may come upon the copy that is
    made from itself. */
module IndexedReads {
  import opened ByteOrder
  import opened Objects
  import opened Octets
  import I = PackIndex
  import F = PackIndexFile
  import opened PackRead
  import opened PackResolve

  /** What is written to the index for the objects found: ids, offsets and checksums. */
  function EntriesFor(p: Pack, objects: seq<Object>, crcs: seq<nat>): (es: seq<I.IdxEntry>)
    requires |p.entries| == |objects| == |crcs|
    ensures |es| == |objects|
    ensures forall k :: 0 <= k < |es| ==> es[k] == I.IdxEntry(p.hash(objects[k]), p.entries[k].offset, crcs[k])
  {
    seq(|objects|, k requires 0 <= k < |objects| => I.IdxEntry(p.hash(objects[k]), p.entries[k].offset, crcs[k]))
  }

  function Ids(idx: I.PackIndex): set<Bytes>
    requires idx.Valid()
  {
    set i | 0 <= i < idx.len :: idx.OidAt(i)
  }

  /** What lookups in the file answer. */
  ghost function IndexOf(idx: I.PackIndex): PackRead.Index
    requires idx.Valid()
  {
    map id | id in Ids(idx) && |id| == RawLen(idx.algo) && I.Position(idx, id) in Usable(idx) :: idx.OffsetAt(I.Position(idx, id)).offset
  }

  /** The entries whose offset is in range. */
  ghost function Usable(idx: I.PackIndex): set<int>
    requires idx.Valid()
  {
    set i | 0 <= i < idx.len && idx.OffsetAt(i).At?
  }

  /** The index built over the objects found names exactly these: each id at an entry that has
      it. */
  lemma BuiltIndexNamesResolved(p: Pack, objects: seq<Object>, crcs: seq<nat>, sorted: seq<I.IdxEntry>, algo: HashAlgo,
                                trailer: Bytes, sum: Bytes) returns (idx: I.PackIndex)
    requires |p.entries| == |objects| == |crcs| && F.WithinLimits(EntriesFor(p, objects, crcs), RawLen(algo))
    requires |trailer| == |sum| == RawLen(algo)
    requires I.Sorted(sorted) && multiset(sorted) == multiset(EntriesFor(p, objects, crcs))
    ensures F.NoEmptyId(sorted) && I.Parsed(F.Body(sorted, trailer) + sum, algo) == I.Index(idx) && idx.Valid()
    ensures NamesResolved(p, objects, IndexOf(idx))
  {
    var es := EntriesFor(p, objects, crcs);
    idx := F.BuiltIsReadBack(es, sorted, algo, trailer, sum);
    assert I.AllValid(es, RawLen(algo));
    hide I.Consistent, I.Parsed, F.Body, I.Sorted, I.LargeCount, F.Recorded, F.HasId, F.WithinLimits, EntriesFor, NamesResolved;
    ReadBackNamesResolved(p, objects, es, idx);
  }

  lemma ReadBackNamesResolved(p: Pack, objects: seq<Object>, es: seq<I.IdxEntry>, idx: I.PackIndex)
    requires |p.entries| == |objects| == |es| && idx.Valid() && I.Consistent(idx) && I.AllValid(es, RawLen(idx.algo))
    requires forall k :: 0 <= k < |es| ==> es[k].oid == p.hash(objects[k]) && es[k].offset == p.entries[k].offset
    requires forall k :: 0 <= k < |es| ==> F.HasId(idx, es[k].oid)
    requires forall i :: 0 <= i < idx.len ==> idx.OffsetAt(i).At? && F.Recorded(es, idx.OidAt(i), idx.OffsetAt(i).offset)
    ensures NamesResolved(p, objects, IndexOf(idx))
  {
    hide I.Consistent, IndexOf, F.Recorded, F.HasId;
    forall k | 0 <= k < |objects|
      ensures p.hash(objects[k]) in IndexOf(idx)
    {
      assert es[k].Valid(RawLen(idx.algo));
      IdIsServed(idx, es, es[k].oid);
    }
    forall id | id in IndexOf(idx)
      ensures exists k :: IsNamed(p, objects, IndexOf(idx), id, k)
    {
      var k := ServedIsRecorded(idx, es, id);
      assert IsNamed(p, objects, IndexOf(idx), id, k);
    }
  }

  lemma ServedIsRecorded(idx: I.PackIndex, es: seq<I.IdxEntry>, id: Bytes) returns (k: nat)
    requires idx.Valid() && id in IndexOf(idx)
    requires forall i :: 0 <= i < idx.len ==> idx.OffsetAt(i).At? && F.Recorded(es, idx.OidAt(i), idx.OffsetAt(i).offset)
    ensures k < |es| && es[k].oid == id && es[k].offset == IndexOf(idx)[id]
  {
    I.PositionIsRight(idx, id);
    var i := I.Position(idx, id);
    hide I.Consistent, I.Position;
    assert F.Recorded(es, idx.OidAt(i), idx.OffsetAt(i).offset);
    k :| 0 <= k < |es| && es[k].oid == id && es[k].offset == idx.OffsetAt(i).offset;
  }

  lemma IdIsServed(idx: I.PackIndex, es: seq<I.IdxEntry>, oid: Bytes)
    requires idx.Valid() && I.Consistent(idx) && |oid| == RawLen(idx.algo) && F.HasId(idx, oid)
    requires forall i :: 0 <= i < idx.len ==> idx.OffsetAt(i).At? && F.Recorded(es, idx.OidAt(i), idx.OffsetAt(i).offset)
    ensures oid in IndexOf(idx)
  {
    I.PositionIsRight(idx, oid);
    hide I.Consistent;
    var i :| 0 <= i < idx.len && idx.OidAt(i) == oid;
    assert I.Position(idx, oid) in Usable(idx);
  }

  /** So a pack that was resolved and indexed is accepted, and its index sound and complete. */
  lemma BuiltIndexServesPack(p: Pack, objects: seq<Object>, crcs: seq<nat>, sorted: seq<I.IdxEntry>, algo: HashAlgo,
                             trailer: Bytes, sum: Bytes) returns (idx: I.PackIndex)
    requires CollisionFree(p) && DistinctOffsets(p) && AreResolved(p, objects)
    requires |p.entries| == |crcs| && F.WithinLimits(EntriesFor(p, objects, crcs), RawLen(algo))
    requires |trailer| == |sum| == RawLen(algo)
    requires I.Sorted(sorted) && multiset(sorted) == multiset(EntriesFor(p, objects, crcs))
    ensures F.NoEmptyId(sorted) && I.Parsed(F.Body(sorted, trailer) + sum, algo) == I.Index(idx) && idx.Valid()
    ensures Accepted(p) && Indexed(p, IndexOf(idx))
  {
    idx := BuiltIndexNamesResolved(p, objects, crcs, sorted, algo, trailer, sum);
    hide CollisionFree, DistinctOffsets, AreResolved, NamesResolved, IndexOf;
    ResolvedIsIndexed(p, objects, IndexOf(idx));
  }

  // ---- an object stored twice ----

  /** The entries of the pack that stores the empty blob twice, in the order of the pack. Their
      ids are equal, so they are sorted. */
  function TwiceEntries(hash: Object -> Oid): seq<I.IdxEntry> {
    [I.IdxEntry(hash(EMPTY_BLOB), 12, 0), I.IdxEntry(hash(EMPTY_BLOB), 20, 0)]
  }

  /** In the index built over them in this order, a lookup comes upon the second copy, and the
      read of it has no end. */
  lemma LookupFindsSecondCopy(hash: Object -> Oid, algo: HashAlgo, trailer: Bytes, sum: Bytes) returns (idx: I.PackIndex)
    requires |hash(EMPTY_BLOB)| == |trailer| == |sum| == RawLen(algo)
    ensures I.Sorted(TwiceEntries(hash)) && F.NoEmptyId(TwiceEntries(hash))
    ensures I.Parsed(F.Body(TwiceEntries(hash), trailer) + sum, algo) == I.Index(idx) && idx.Valid()
    ensures IndexOf(idx) == SecondCopy(hash)
    ensures !EndsSomewhere(Twice(hash), IndexOf(idx), 20)
  {
    var es, id := TwiceEntries(hash), hash(EMPTY_BLOB);
    BytesLessIsStrict(id);
    TwiceIsEndless(hash);
    hide BytesLess, I.Parsed, F.Body;
    assert I.LargeCount(es) <= 2;
    idx := F.ImageIsRead(es, algo, trailer, sum);
    F.ImageIsConsistent(es, algo, trailer, sum, idx);
    TwiceInBucket(idx, id);
    hide I.Consistent;
    TwiceIsFound(idx, es, id);
  }

  lemma TwiceInBucket(idx: I.PackIndex, id: Bytes)
    requires idx.Valid() && I.Consistent(idx) && |id| == RawLen(idx.algo) && idx.len == 2
    requires idx.OidAt(0) == idx.OidAt(1) == id
    ensures I.BucketStart(idx, id[0] as int) == 0 && I.FanAt(idx.file, id[0] as int) == 2
  {
    var b := id[0] as int;
    I.BucketEnds(idx, b);
    hide I.FanAt;
    assert idx.OidAt(1)[0] as int <= b;
    assert b > 0 ==> !(idx.OidAt(0)[0] as int <= b - 1);
  }

  lemma TwiceIsFound(idx: I.PackIndex, es: seq<I.IdxEntry>, id: Bytes)
    requires idx.Valid() && |es| == 2 && F.Holds(idx, es) && |id| == RawLen(idx.algo)
    requires es[0].oid == es[1].oid == id && es[1].offset == 20
    requires I.BucketStart(idx, id[0] as int) == 0 && I.FanAt(idx.file, id[0] as int) == 2
    ensures IndexOf(idx) == map[id := 20]
  {
    hide I.FanAt;
    assert I.Position(idx, id) == 1;
    assert idx.OidAt(0) == id;
    assert Ids(idx) == {id};
  }
}
