/** Handles of the object map that share one file under a write lock (crates/alt-odb/src/map.rs,
    lib.rs).

    Every method but `Rewind` keeps every other handle valid, so without rewinds the invariants
    hold over any interleaving of calls. A rewind keeps exactly those handles valid that have read
    nothing of what it drops. Another one does not notice: it still finds the dropped ids, and when
    it appends, it writes behind a hole that makes the file unreadable from there on. */
module MapHandles {
  import opened MapRecord
  import opened ObjectMap
  import opened Objects
  import opened Octets

  const NOBODY := 0

  /** The header, whole records with distinct git ids, and less than a record behind them. */
  ghost predicate Holds(check: Checksum, data: Bytes, es: seq<MapEntry>) {
    AllValid(es) && Distinct(es) && IsImageWithTail(check, data, es)
  }

  /** The file, and who holds the write lock. `records` are the whole records in it. */
  class Disk {
    const check: Checksum
    var data: Bytes
    var owner: nat
    ghost var records: seq<MapEntry>

    constructor (check: Checksum, data: Bytes)
      ensures this.check == check && this.data == data && owner == NOBODY && records == []
    {
      this.check, this.data, owner, records := check, data, NOBODY, [];
    }

    ghost predicate Valid()
      reads this
    {
      Holds(check, data, records)
    }

    ghost predicate Whole()
      reads this
    {
      HoldsOnly(check, data, records)
    }
  }

  datatype Status = Fine | Failed(error: MapError)

  datatype PutResult = Stored(alt: Bytes) | NotStored(error: MapError)

  datatype RewindStatus = Rewound | AboveCursor | BelowHeader | MidRecord

  class MapHandle {
    const disk: Disk
    const id: nat
    var entries: seq<MapEntry>
    var byGit: ByGit
    var byAlt: ByAlt
    var len: nat
    var pos: nat
    var held: bool

    /** The indexes are those of the entries, and the cursor is behind them. */
    ghost predicate Sane()
      reads this
    {
      id != NOBODY && len == pos == |HEADER| + REC_LEN * |entries| && Indexed(entries, byGit, byAlt)
    }

    /** The handle holds a prefix of the records, all of them while it has the lock. */
    ghost predicate Valid()
      reads this, disk
    {
      && Sane() && disk.Valid() && entries <= disk.records
      && (held ==> disk.owner == id && entries == disk.records && disk.Whole())
    }

    ghost predicate Peers(others: set<MapHandle>)
      reads disk, others
    {
      forall o :: o in others ==> o.disk == disk && o.id != id && o.Valid()
    }

    /** Nobody else has the lock. */
    ghost predicate MayLock()
      reads disk
    {
      disk.owner == NOBODY || disk.owner == id
    }

    /** A handle that has read nothing yet. */
    constructor (disk: Disk, id: nat)
      requires id != NOBODY
      ensures this.disk == disk && this.id == id && !held && len == pos == |HEADER|
      ensures entries == [] && Indexed(entries, byGit, byAlt)
    {
      this.disk, this.id, held := disk, id, false;
      entries, byGit, byAlt, len, pos := [], map[], map[], |HEADER|, |HEADER|;
    }

    method Insert(e: MapEntry)
      requires Indexed(entries, byGit, byAlt)
      modifies this`entries, this`byGit, this`byAlt
      ensures entries == old(entries) + [e] && Indexed(entries, byGit, byAlt)
    {
      IndexGrows(entries, e, byGit, byAlt);
      var at := |entries|;
      entries := entries + [e];
      byGit := byGit[e.git := at];
      byAlt := byAlt[e.alt := Slots(byAlt, e.alt) + [at]];
    }

    /** Reads the records from `start` on into the handle. */
    method ReadRecords(start: nat, strict: bool) returns (status: Status, at: nat)
      requires Indexed(entries, byGit, byAlt) && start <= |disk.data|
      modifies this`entries, this`byGit, this`byAlt
      ensures Indexed(entries, byGit, byAlt)
      ensures match Prepended(old(entries), Scanned(disk.check, disk.data, start, strict))
              case Recovered(all, end) => status == Fine && entries == all && at == end
              case Broken(error) => status == Failed(error)
    {
      at := start;
      var data := disk.data;
      ghost var result := Prepended(entries, Scanned(disk.check, data, at, strict));
      hide Indexed, ChecksumFits, Parsed, Prepended, Scanned;
      while at + REC_LEN <= |data|
        invariant at <= |data| && Indexed(entries, byGit, byAlt)
        invariant result == Prepended(entries, Scanned(disk.check, data, at, strict))
      {
        var rec := data[at..at + REC_LEN];
        ScannedOn(disk.check, data, at, strict, entries);
        if !ChecksumFits(disk.check, rec) {
          if strict && at + REC_LEN != |data| {
            return Failed(CorruptRecord), at;
          }
          return Fine, at;
        }
        var parsed := Parsed(rec);
        if parsed.NoEntry? {
          return Failed(parsed.error), at;
        }
        Insert(parsed.entry);
        at := at + REC_LEN;
      }
      ScannedToEnd(disk.check, data, at, strict, entries);
      status := Fine;
    }

    /** Opens the file, whatever is in it, and cuts off what is not a whole record. */
    method Open() returns (status: Status)
      requires entries == [] && len == pos == |HEADER| && Indexed(entries, byGit, byAlt)
      modifies this, disk`data, disk`records
      ensures held == old(held)
      ensures match Recover(disk.check, old(disk.data))
              case Broken(error) => status == Failed(error) && disk.data == old(disk.data) && disk.records == old(disk.records)
              case Recovered(es, n) =>
                && status == Fine && entries == disk.records == es && Indexed(entries, byGit, byAlt)
                && disk.data == (if n < |HEADER| then HEADER else old(disk.data)[..n])
                && len == pos == |disk.data|
      ensures old(disk.Valid()) ==> status == Fine && disk.records == old(disk.records) && disk.Valid() && disk.Whole()
    {
      hide Indexed, ChecksumFits, Parsed;
      var data := disk.data;
      if disk.Valid() {
        OpenedWhole(disk.check, data, disk.records);
      }
      if |data| < |HEADER| {
        if data != HEADER[..|data|] {
          return Failed(BadHeader);
        }
      } else {
        if data[..4] != HEADER[..4] {
          return Failed(BadHeader);
        }
        if data[4] != HEADER[4] {
          return Failed(UnsupportedVersion);
        }
      }
      var validLen: nat := if |data| < |HEADER| then |data| else |HEADER|;
      ghost var found := Scanned(disk.check, data, validLen, true);
      assert Recover(disk.check, data) == found;
      status, validLen := ReadRecords(validLen, true);
      if status.Failed? {
        return;
      }
      assert [] + found.entries == found.entries;
      hide Scanned, Recover, Holds, HoldsOnly;
      if validLen < |HEADER| {
        disk.data := HEADER;
      } else if validLen < |data| {
        disk.data := disk.data[..validLen];
      }
      len := if validLen < |HEADER| then |HEADER| else validLen;
      pos := len;
      disk.records := entries;
    }

    /** Folds in what others have appended, and cuts off what a killed writer left unfinished. A
        file that is no longer than the handle has read is left alone. */
    method SyncFromDisk() returns (status: Status)
      requires Sane()
      modifies this`entries, this`byGit, this`byAlt, this`len, this`pos, disk`data
      ensures old(|disk.data| <= len) ==> status == Fine && unchanged(this) && unchanged(disk)
      ensures old(|disk.data| > len) ==> CaughtUp(disk.check, old(disk.data), old(entries), old(len), status, disk.data, entries, len)
      ensures status == Fine ==> Sane()
      ensures old(disk.Valid()) ==> status == Fine && disk.Valid()
      ensures old(disk.Valid() && entries <= disk.records) ==> entries == disk.records && disk.Whole()
    {
      hide Indexed, Scanned, Holds, HoldsOnly;
      var size := |disk.data|;
      if disk.Valid() {
        CatchingUpIsRight(disk.check, disk.data, disk.records, entries, len);
      }
      if size <= len {
        return Fine;
      }
      ScannedLength(disk.check, disk.data, len, false);
      var at;
      status, at := ReadRecords(len, false);
      if status.Failed? {
        return;
      }
      pos := size;
      if at < size {
        disk.data := disk.data[..at];
        pos := at;
      }
      len := at;
    }

    /** Takes the lock and catches up, unless the lock is held already. */
    method Acquire(ghost others: set<MapHandle>) returns (status: Status)
      requires Sane() && MayLock()
      modifies this, disk`data, disk`owner
      ensures held && MayLock() && (old(held) || disk.owner == id)
      ensures old(held) ==> disk.owner == old(disk.owner)
      ensures old(held || |disk.data| <= len) ==>
        && status == Fine && disk.data == old(disk.data) && len == old(len)
        && entries == old(entries) && byGit == old(byGit) && byAlt == old(byAlt)
      ensures old(!held && |disk.data| > len) ==>
        CaughtUp(disk.check, old(disk.data), old(entries), old(len), status, disk.data, entries, len)
      ensures status == Fine ==> Sane()
      ensures old(Valid() && Peers(others)) ==> status == Fine && Valid() && Peers(others)
      ensures !old(held) && old(disk.Valid() && Peers(others)) ==> status == Fine && disk.Valid() && Peers(others)
    {
      if held {
        return Fine;
      }
      if Peers(others) {
        FreeLock(others);
      }
      disk.owner := id;
      held := true;
      hide Indexed, Holds, HoldsOnly, CaughtUp;
      status := SyncFromDisk();
    }

    /** Whether another handle holds the lock does not matter to those that do not. */
    lemma FreeLock(others: set<MapHandle>)
      requires Peers(others) && MayLock()
      ensures forall o :: o in others ==> !o.held
    {
    }

    method Release(ghost others: set<MapHandle>)
      modifies this`held, disk`owner
      ensures !held && disk.owner == if old(held) then NOBODY else old(disk.owner)
      ensures old(Valid() && Peers(others)) ==> Valid() && Peers(others)
    {
      if held {
        if Valid() && Peers(others) {
          FreeLock(others);
        }
        disk.owner := NOBODY;
        held := false;
      }
    }

    /** Writes a record at the cursor. */
    method Append(e: MapEntry, ghost others: set<MapHandle>)
      requires Sane() && e.Valid()
      modifies this`entries, this`byGit, this`byAlt, this`len, this`pos, disk`data, disk`records
      ensures Sane() && entries == old(entries) + [e]
      ensures disk.data == WriteAt(old(disk.data), old(pos), Encoded(disk.check, e))
      ensures old(Valid() && held && Peers(others)) && e.git !in old(byGit) ==>
                Valid() && Peers(others) && disk.records == old(disk.records) + [e]
    {
      ghost var fits := Valid() && held && Peers(others) && e.git !in byGit;
      if fits {
        GrownIsRight(disk.check, disk.data, entries, e, byGit, byAlt);
        PeersWait(others);
      }
      hide Peers, Waiting, Indexed, Holds, HoldsOnly, Encoded, WriteAt;
      AppendRecord(e);
      if fits {
        disk.records := disk.records + [e];
        WaitingArePeers(others, old(disk.records));
      }
    }

    /** The bytes, the indexes and the cursor. */
    method AppendRecord(e: MapEntry)
      requires Sane() && e.Valid()
      modifies this`entries, this`byGit, this`byAlt, this`len, this`pos, disk`data
      ensures Sane() && entries == old(entries) + [e]
      ensures disk.data == WriteAt(old(disk.data), old(pos), Encoded(disk.check, e))
    {
      hide Indexed, Encoded, WriteAt;
      disk.data := WriteAt(disk.data, pos, Encoded(disk.check, e));
      pos := pos + REC_LEN;
      Insert(e);
      len := len + REC_LEN;
    }

    /** What the peers of a handle that may lock have read is among `es`. */
    ghost predicate Waiting(others: set<MapHandle>, es: seq<MapEntry>)
      reads others
    {
      forall o :: o in others ==> o.disk == disk && o.id != id && o.Sane() && !o.held && o.entries <= es
    }

    lemma PeersWait(others: set<MapHandle>)
      requires Peers(others) && MayLock()
      ensures this !in others && Waiting(others, disk.records)
    {
    }

    lemma WaitingArePeers(others: set<MapHandle>, es: seq<MapEntry>)
      requires Waiting(others, es) && disk.Valid() && es <= disk.records
      ensures Peers(others)
    {
    }

    /** Records an object, unless the handle has its git id. The content id of the record is
        returned. */
    method Put(e: MapEntry, ghost others: set<MapHandle>) returns (r: PutResult)
      requires Sane() && e.Valid() && MayLock()
      modifies this, disk`data, disk`records, disk`owner
      ensures held && MayLock()
      ensures r.Stored? ==> Sane() && Pairs(entries, e.git, r.alt)
      ensures old(Valid() && Peers(others)) ==>
        && r.Stored? && Valid() && Peers(others)
        && disk.records == if Known(old(disk.records), e.git) then old(disk.records) else old(disk.records) + [e]
      ensures old(held || |disk.data| <= len) ==>
        && r.Stored? && entries == (if e.git in old(byGit) then old(entries) else old(entries) + [e])
        && (e.git in old(byGit) ==> disk.data == old(disk.data) && disk.records == old(disk.records))
        && (e.git !in old(byGit) ==> disk.data == WriteAt(old(disk.data), old(len), Encoded(disk.check, e)))
    {
      hide Known, Pairs, Indexed, Holds, HoldsOnly, CaughtUp, Encoded, WriteAt;
      var status := Acquire(others);
      if status.Failed? {
        return NotStored(status.error);
      }
      var alt := PutLocked(e, others);
      r := Stored(alt);
    }

    /** Records an object, once the lock is held. */
    method PutLocked(e: MapEntry, ghost others: set<MapHandle>) returns (alt: Bytes)
      requires Sane() && held && e.Valid()
      modifies this`entries, this`byGit, this`byAlt, this`len, this`pos, disk`data, disk`records
      ensures Sane() && Pairs(entries, e.git, alt)
      ensures old(Valid() && Peers(others)) ==>
        && Valid() && Peers(others)
        && disk.records == if Known(old(disk.records), e.git) then old(disk.records) else old(disk.records) + [e]
      ensures entries == if e.git in old(byGit) then old(entries) else old(entries) + [e]
      ensures e.git in old(byGit) ==> disk.data == old(disk.data) && disk.records == old(disk.records)
      ensures e.git !in old(byGit) ==> disk.data == WriteAt(old(disk.data), old(len), Encoded(disk.check, e))
    {
      Finds(e.git);
      if e.git in byGit {
        return entries[byGit[e.git]].alt;
      }
      hide Known, Indexed, Holds, HoldsOnly, Peers, Encoded, WriteAt;
      Append(e, others);
      assert entries[|entries| - 1] == e;
      alt := e.alt;
    }

    /** The index finds what is in the entries. */
    lemma Finds(g: ObjectId)
      requires Sane()
      ensures g in byGit <==> Known(entries, g)
      ensures g in byGit ==> byGit[g] < |entries| && entries[byGit[g]].git == g
    {
      IndexedGit(entries, byGit, byAlt, g);
    }

    /** The writer is killed while it appends: less than a record is written, and the lock is
        free. The handle is gone; all others go on. */
    method Die(e: MapEntry, written: nat, ghost others: set<MapHandle>)
      requires Sane() && held && e.Valid() && written < REC_LEN
      modifies disk`data, disk`owner
      ensures disk.owner == NOBODY && disk.data == WriteAt(old(disk.data), pos, Encoded(disk.check, e)[..written])
      ensures old(Valid() && Peers(others)) ==> disk.Valid() && Peers(others)
    {
      if Valid() && Peers(others) {
        FreeLock(others);
        TornTail(disk.check, disk.data, disk.records, Encoded(disk.check, e)[..written]);
      }
      hide Indexed, Holds, HoldsOnly, Encoded, WriteAt;
      disk.data := WriteAt(disk.data, pos, Encoded(disk.check, e)[..written]);
      disk.owner := NOBODY;
    }

    /** Goes back to an earlier cursor, whoever has the lock. The entries and both indexes are what
        they were at that cursor, and so is the file. A peer goes on being right if and only if it
        has read nothing of what was dropped. */
    method Rewind(target: nat, ghost others: set<MapHandle>) returns (status: RewindStatus)
      requires Sane()
      modifies this`entries, this`byGit, this`byAlt, this`len, this`pos, disk`data, disk`records
      ensures status == if target > old(len) then AboveCursor
                        else if target < |HEADER| then BelowHeader
                        else if (old(len) - target) % REC_LEN != 0 then MidRecord
                        else Rewound
      ensures held == old(held) && (status != Rewound ==> unchanged(this) && unchanged(disk))
      ensures status == Rewound ==>
        && len == pos == target && entries == old(entries)[..(target - |HEADER|) / REC_LEN]
        && disk.data == CutOrPad(old(disk.data), target)
      ensures old(Distinct(entries)) ==> Sane()
      ensures old(Valid()) ==> Valid()
      ensures old(Valid()) && status == Rewound ==> disk.Whole() && disk.records == entries == old(disk.records)[..|entries|]
      ensures status == Rewound && old(Valid() && Peers(others)) ==>
                forall o :: o in others ==> (o.Valid() <==> |o.entries| <= |entries|)
    {
      if target > len {
        return AboveCursor;
      }
      if target < |HEADER| {
        return BelowHeader;
      }
      var dropBytes := len - target;
      if dropBytes % REC_LEN != 0 {
        return MidRecord;
      }
      ghost var valid, peers := Valid(), Valid() && Peers(others);
      if valid {
        RewoundImage(disk.check, disk.data, disk.records, entries, (target - |HEADER|) / REC_LEN);
      }
      hide Peers, Indexed, Distinct, Holds, HoldsOnly, CutOrPad;
      label before:
      CutBack(target);
      if valid {
        disk.records := entries;
      }
      if peers {
        PeersOfRewound@before(others);
      }
      status := Rewound;
    }

    /** Cuts the file at a cursor between two records, and drops the entries behind it. */
    method CutBack(target: nat)
      requires Sane() && |HEADER| <= target <= len && (len - target) % REC_LEN == 0
      modifies this`entries, this`byGit, this`byAlt, this`len, this`pos, disk`data
      ensures len == pos == target && entries == old(entries)[..(target - |HEADER|) / REC_LEN]
      ensures disk.data == CutOrPad(old(disk.data), target)
      ensures old(Distinct(entries)) ==> Sane()
    {
      hide Indexed, Distinct, CutOrPad;
      DropFrom(|entries| - (len - target) / REC_LEN);
      disk.data := CutOrPad(disk.data, target);
      pos, len := target, target;
    }

    /** After a rewind. */
    twostate lemma PeersOfRewound(others: set<MapHandle>)
      requires old(Valid() && Peers(others)) && unchanged(others) && disk.owner == old(disk.owner)
      requires disk.Valid() && disk.Whole() && disk.records == entries && entries <= old(entries)
      ensures forall o :: o in others ==> (o.Valid() <==> |o.entries| <= |entries|)
    {
    }

    /** Keeps the slots of a content that are below `keep`. */
    method RetainSlots(alt: Bytes, keep: nat)
      modifies this`byAlt
      ensures Retained(old(byAlt), byAlt, alt, keep)
    {
      if alt in byAlt {
        var slots := Retain(byAlt[alt], keep);
        byAlt := if slots == [] then byAlt - {alt} else byAlt[alt := slots];
      }
    }

    /** Drops the entries from `keep` on, and takes them out of the indexes. */
    method DropFrom(keep: nat)
      requires keep <= |entries| && Indexed(entries, byGit, byAlt)
      modifies this`entries, this`byGit, this`byAlt
      ensures entries == old(entries)[..keep] && (old(Distinct(entries)) ==> Indexed(entries, byGit, byAlt))
    {
      ghost var was := entries;
      NothingDropped(was, keep, byGit, byAlt);
      hide Indexed, Distinct, Dropping, Retained;
      var dropped := entries[keep..];
      entries := entries[..keep];
      for i := 0 to |dropped|
        invariant entries == was[..keep] && Dropping(was, keep, i, byGit, byAlt)
      {
        var e := dropped[i];
        assert e == was[keep + i];
        ghost var gits, alts := byGit, byAlt;
        byGit := byGit - {e.git};
        RetainSlots(e.alt, keep);
        DropStep(was, keep, i, gits, alts, byAlt);
      }
      if Distinct(was) {
        DroppedIsIndexed(was, keep, byGit, byAlt);
      }
    }
  }

  /** Keeps the slots below `n`. */
  method Retain(slots: seq<nat>, n: nat) returns (r: seq<nat>)
    ensures r == Below(slots, n)
  {
    r := [];
    for i := 0 to |slots|
      invariant r == Below(slots[..i], n)
    {
      assert slots[..i + 1][..i] == slots[..i];
      if slots[i] < n {
        r := r + [slots[i]];
      }
    }
    assert slots[..|slots|] == slots;
  }

  /** A file without what is behind its records. */
  lemma CutToRecords(check: Checksum, data: Bytes, es: seq<MapEntry>)
    requires Holds(check, data, es)
    ensures |HEADER| + REC_LEN * |es| <= |data| < |HEADER| + REC_LEN * |es| + REC_LEN
    ensures Holds(check, data[..|HEADER| + REC_LEN * |es|], es) && HoldsOnly(check, data[..|HEADER| + REC_LEN * |es|], es)
    ensures |data| == |HEADER| + REC_LEN * |es| ==> HoldsOnly(check, data, es)
  {
    hide Image;
    WholeHasImage(check, es);
    assert data[..|data|] == data;
  }

  /** What is left when a write at the end of the records was interrupted. */
  lemma TornTail(check: Checksum, data: Bytes, es: seq<MapEntry>, tail: Bytes)
    requires Holds(check, data, es) && HoldsOnly(check, data, es) && |tail| < REC_LEN
    ensures Holds(check, WriteAt(data, |HEADER| + REC_LEN * |es|, tail), es)
  {
    hide Image;
    assert data[..|data|] == data;
    assert (data + tail)[..|data|] == data;
  }

  /** One record more, with a git id that is new. */
  lemma GrownIsRight(check: Checksum, data: Bytes, es: seq<MapEntry>, e: MapEntry, byGit: ByGit, byAlt: ByAlt)
    requires Holds(check, data, es) && HoldsOnly(check, data, es) && e.Valid() && Indexed(es, byGit, byAlt) && e.git !in byGit
    ensures var now := WriteAt(data, |HEADER| + REC_LEN * |es|, Encoded(check, e));
            Holds(check, now, es + [e]) && HoldsOnly(check, now, es + [e])
  {
    NewIsDistinct(es, e, byGit, byAlt);
    ImageGrows(check, es, e);
    hide Image, Encoded;
    WholeHasImage(check, es + [e]);
    assert data[..|data|] == data;
  }

  /** A file of records, cut back to fewer that some handle has read. */
  lemma RewoundImage(check: Checksum, data: Bytes, records: seq<MapEntry>, es: seq<MapEntry>, keep: nat)
    requires Holds(check, data, records) && es <= records && keep <= |es|
    ensures var now := CutOrPad(data, |HEADER| + REC_LEN * keep);
            Holds(check, now, es[..keep]) && HoldsOnly(check, now, es[..keep])
    ensures Distinct(es) && es[..keep] == records[..keep]
  {
    assert es[..keep] == records[..keep];
    ImagePrefix(check, records, keep);
    WholeHasImage(check, es[..keep]);
    hide Image;
    var n := |HEADER| + REC_LEN * keep;
    assert data[..n] == data[..|Image(check, records)|][..n];
  }

  /** Some record has the git id. */
  ghost predicate Known(es: seq<MapEntry>, g: ObjectId) {
    exists k :: 0 <= k < |es| && es[k].git == g
  }

  /** Some record gives the git id this content. */
  ghost predicate Pairs(es: seq<MapEntry>, g: ObjectId, alt: Bytes) {
    exists k :: 0 <= k < |es| && es[k].git == g && es[k].alt == alt
  }

  lemma IndexedGit(es: seq<MapEntry>, byGit: ByGit, byAlt: ByAlt, g: ObjectId)
    requires Indexed(es, byGit, byAlt)
    ensures g in byGit <==> Known(es, g)
    ensures g in byGit ==> byGit[g] < |es| && es[byGit[g]].git == g
  {
    GitIndexIsInverse(es);
  }

  lemma NewIsDistinct(es: seq<MapEntry>, e: MapEntry, byGit: ByGit, byAlt: ByAlt)
    requires Indexed(es, byGit, byAlt) && Distinct(es) && e.git !in byGit
    ensures Distinct(es + [e])
  {
    GitIndexIsInverse(es);
  }

  /** What opening finds in a file of records. */
  lemma OpenedWhole(check: Checksum, data: Bytes, es: seq<MapEntry>)
    requires Holds(check, data, es)
    ensures |HEADER| + REC_LEN * |es| <= |data| && Recover(check, data) == Recovered(es, |HEADER| + REC_LEN * |es|)
    ensures Holds(check, data[..|HEADER| + REC_LEN * |es|], es) && HoldsOnly(check, data[..|HEADER| + REC_LEN * |es|], es)
  {
    hide Image;
    WholeIsRecovered(check, data, es);
    CutToRecords(check, data, es);
  }

  lemma {:induction false} ScannedLength(check: Checksum, data: Bytes, at: nat, strict: bool)
    requires at <= |data|
    ensures match Scanned(check, data, at, strict)
            case Recovered(es, end) => end == at + REC_LEN * |es|
            case Broken(_) => true
    decreases |data| - at
  {
    hide ChecksumFits, Parsed;
    if at + REC_LEN <= |data| && ChecksumFits(check, data[at..at + REC_LEN]) && Parsed(data[at..at + REC_LEN]).Entry? {
      ScannedLength(check, data, at + REC_LEN, strict);
    }
  }

  /** What catching up does to a handle that has read `es`, `n` bytes of the longer file `was`. */
  ghost predicate CaughtUp(check: Checksum, was: Bytes, es: seq<MapEntry>, n: nat,
                           status: Status, now: Bytes, all: seq<MapEntry>, m: nat)
    requires n < |was|
  {
    match Scanned(check, was, n, false)
    case Recovered(more, end) => status == Fine && now == was[..end] && all == es + more && m == end
    case Broken(error) => status == Failed(error) && now == was && m == n
  }

  /** In a file of records, catching up leaves all records, and a handle that has read the first of
      them gets the others. */
  lemma CatchingUpIsRight(check: Checksum, data: Bytes, records: seq<MapEntry>, es: seq<MapEntry>, n: nat)
    requires Holds(check, data, records) && n == |HEADER| + REC_LEN * |es|
    ensures n < |data| ==> |es| <= |records| && Scanned(check, data, n, false) == Recovered(records[|es|..], |HEADER| + REC_LEN * |records|)
    ensures n >= |data| && es <= records ==> es == records && HoldsOnly(check, data, records)
    ensures es <= records ==> es + records[|es|..] == records
    ensures |HEADER| + REC_LEN * |records| <= |data|
    ensures var now := data[..|HEADER| + REC_LEN * |records|]; Holds(check, now, records) && HoldsOnly(check, now, records)
  {
    hide Image, Scanned, IsImageWithTail, AllValid;
    CutToRecords(check, data, records);
    if es <= records {
      PrefixAndRest(es, records);
    }
    if n < |data| {
      WholeRecordsAreScanned(check, data, records, |es|, false);
    }
  }

  lemma PrefixAndRest(es: seq<MapEntry>, all: seq<MapEntry>)
    requires es <= all
    ensures es + all[|es|..] == all && (|es| == |all| ==> es == all)
  {
  }

  // ---- a rewind that a peer does not notice ----

  lemma Unlike(check: Checksum, data: Bytes, records: seq<MapEntry>, es: seq<MapEntry>, n: nat)
    requires Holds(check, data, records) && es <= records && n <= |es|
    ensures forall k :: n <= k < |es| ==> es[k] !in records[..n]
  {
    assert es == records[..|es|];
    assert forall j :: 0 <= j < |es| ==> es[j] == records[j];
  }

  /** One handle rewinds to `n` records, of which the other has read more. */
  method RewindBehindPeer(writer: MapHandle, peer: MapHandle, n: nat)
    requires writer.Valid() && peer.disk == writer.disk && peer != writer && peer.Valid() && !peer.held
    requires n <= |writer.entries| && n < |peer.entries|
    modifies writer, writer.disk
    ensures writer.disk.Whole() && writer.disk.records == old(writer.disk.records)[..n] && |writer.disk.data| == |HEADER| + REC_LEN * n
    ensures peer.Sane() && writer.disk.owner == old(writer.disk.owner)
    ensures forall k :: n <= k < |peer.entries| ==> peer.entries[k] !in writer.disk.records
  {
    Unlike(writer.disk.check, writer.disk.data, writer.disk.records, peer.entries, n);
    hide Indexed, Holds, HoldsOnly;
    var status := writer.Rewind(|HEADER| + REC_LEN * n, {});
  }

  /** Asked to record an object that was dropped, the other says that it is recorded, and writes
      nothing. */
  method PutDropped(peer: MapHandle, k: nat) returns (answer: PutResult)
    requires peer.Sane() && !peer.held && peer.MayLock() && |peer.disk.data| <= peer.len && Distinct(peer.entries)
    requires k < |peer.entries| && peer.entries[k].Valid()
    modifies peer, peer.disk
    ensures answer == Stored(old(peer.entries)[k].alt)
    ensures peer.disk.data == old(peer.disk.data) && peer.disk.records == old(peer.disk.records)
    ensures peer.Sane() && peer.held && peer.MayLock() && peer.entries == old(peer.entries)
  {
    var was := peer.entries;
    IndexedGit(was, peer.byGit, peer.byAlt, was[k].git);
    assert was[k].git in peer.byGit;
    assert forall j :: 0 <= j < |was| && was[j].git == was[k].git ==> j == k;
    hide Known, Indexed, Holds, HoldsOnly, CaughtUp, Encoded, WriteAt, Distinct;
    answer := peer.Put(was[k], {});
  }

  /** A new object it writes where the file had ended, and the file cannot be opened any more. */
  method PutBehindHole(peer: MapHandle, e: MapEntry) returns (answer: PutResult)
    requires peer.Sane() && peer.held && peer.MayLock() && peer.disk.Whole() && |peer.disk.records| < |peer.entries|
    requires e.Valid() && e.git !in peer.byGit
    modifies peer, peer.disk
    ensures answer == Stored(e.alt) && Recover(peer.disk.check, peer.disk.data).Broken?
  {
    AppendBehindHole(peer.disk.check, peer.disk.data, peer.disk.records, |peer.entries|, e);
    IndexedGit(peer.entries, peer.byGit, peer.byAlt, e.git);
    hide Indexed, Holds, HoldsOnly, CaughtUp, Encoded, WriteAt, Recover, Image, AllValid;
    answer := peer.Put(e, {});
  }

  lemma EmptyFile(check: Checksum)
    ensures Holds(check, HEADER, [])
  {
    WholeHasImage(check, []);
    assert HEADER + Records(check, []) == HEADER;
  }

  /** Two handles of a new file. */
  method TwoHandles(check: Checksum) returns (disk: Disk, one: MapHandle, two: MapHandle)
    ensures fresh(disk) && disk.check == check && disk.records == [] && disk.owner == NOBODY
    ensures fresh(one) && one.disk == disk && one.Valid() && !one.held && one.id == 1
    ensures fresh(two) && two.disk == disk && two.Valid() && !two.held && two.id == 2
  {
    EmptyFile(check);
    hide Indexed, Holds, HoldsOnly;
    disk := new Disk(check, HEADER);
    one := new MapHandle(disk, 1);
    two := new MapHandle(disk, 2);
  }

  /** The first record of a file. */
  method PutFirst(writer: MapHandle, peer: MapHandle, e: MapEntry)
    requires writer.Valid() && writer.Peers({peer}) && !peer.held && writer.MayLock() && e.Valid() && writer.disk.records == []
    modifies writer, writer.disk
    ensures writer.Valid() && writer.Peers({peer}) && !writer.held && writer.disk.owner == NOBODY
    ensures writer.disk.records == [e]
  {
    assert !Known([], e.git) && [] + [e] == [e];
    hide *;
    var stored := writer.Put(e, {peer});
    writer.Release({peer});
  }

  /** A handle reads what is recorded. */
  method Refresh(handle: MapHandle, peer: MapHandle)
    requires handle.Valid() && handle.Peers({peer}) && !handle.held && handle.disk.owner == NOBODY
    modifies handle, handle.disk
    ensures handle.Valid() && handle.Peers({peer}) && !handle.held && handle.disk.owner == NOBODY
    ensures handle.entries == handle.disk.records == old(handle.disk.records)
  {
    hide Indexed, Holds, HoldsOnly, CaughtUp;
    var status := handle.Acquire({peer});
    handle.Release({peer});
  }

  /** A run in which a rewind leaves a file that cannot be opened any more. */
  method RunWithRewind(check: Checksum, e: MapEntry, f: MapEntry) returns (answer: PutResult, data: Bytes)
    requires e.Valid() && f.Valid() && e.git != f.git
    ensures answer == Stored(e.alt)
    ensures Recover(check, data).Broken?
  {
    var disk, writer, peer := TwoHandles(check);
    PutFirst(writer, peer, e);
    Refresh(peer, writer);
    RewindBehindPeer(writer, peer, 0);
    answer := PutDropped(peer, 0);
    IndexedGit(peer.entries, peer.byGit, peer.byAlt, f.git);
    var second := PutBehindHole(peer, f);
    data := peer.disk.data;
  }
}