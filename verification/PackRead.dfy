/** Reading single objects out of a pack (crates/alt-git-pack/src/lib.rs).

    `ReadAt` walks down the chain of an entry until it meets a cached object or a plain entry,
    and applies the deltas on the way back. The base of a ref delta is found through the index
    of the pack. When the walk ends, the object read is the meaning of the entry, whatever the
    cache has kept. The walk ends everywhere if and only if no entry comes back to itself. In a
    pack that holds an object twice, it may: the index may name the copy that is made from
    itself. */
module PackRead {
  import opened Objects
  import opened Octets
  import opened PackResolve
  import opened DeltaCache
  import Delta

  type Index = map<Oid, nat>

  /** The entries of a pack that was read from front to back. */
  predicate DistinctOffsets(p: Pack) {
    forall i, j :: 0 <= i < j < |p.entries| ==> p.entries[i].offset != p.entries[j].offset
  }

  /** Every entry has a meaning: this is what `ResolveAll` accepts. */
  ghost predicate Accepted(p: Pack) {
    forall i: nat :: i < |p.entries| ==> HasMeaning(p, i)
  }

  /** The entry at offset `at` stands for `o`. */
  ghost predicate Stored(p: Pack, at: nat, o: Object) {
    exists i: nat :: LastAt(p.entries, at, i) && StandsFor(p, i, o)
  }

  /** An object with the id `id` is stored at offset `at`. */
  ghost predicate StoredAs(p: Pack, at: nat, id: Oid) {
    exists o: Object :: Stored(p, at, o) && p.hash(o) == id
  }

  /** What the index names is there. */
  ghost predicate IndexIsSound(p: Pack, index: Index) {
    forall id :: id in index ==> StoredAs(p, index[id], id)
  }

  /** The index names, for every id of an object in the pack and no other, an entry with it. */
  ghost predicate Indexed(p: Pack, index: Index) {
    && IndexIsSound(p, index)
    && (forall i: nat, o: Object :: StandsFor(p, i, o) ==> p.hash(o) in index)
  }

  // ---- the walk down ----

  /** Where the walk goes from a delta entry. */
  predicate Next(p: Pack, index: Index, at: nat, to: nat) {
    exists i: nat :: i < |p.entries| && LastAt(p.entries, at, i) && BaseAt(p.entries[i].kind, index, to)
  }

  predicate BaseAt(kind: EntryKind, index: Index, to: nat) {
    match kind
    case Plain(_) => false
    case Ofs(at) => to == at
    case Ref(id) => id in index && index[id] == to
  }

  /** Nothing leads on from `at`: a plain entry, or in a broken pack a missing base. */
  ghost predicate IsEnd(p: Pack, index: Index, at: nat) {
    forall to: nat :: !Next(p, index, at, to)
  }

  /** The walk from `at` ends after at most `n` steps. */
  ghost predicate Ends(p: Pack, index: Index, at: nat, n: nat)
    decreases n
  {
    IsEnd(p, index, at) || (n > 0 && exists to: nat :: Next(p, index, at, to) && Ends(p, index, to, n - 1))
  }

  /** The walk ends, wherever it starts. */
  ghost predicate Grounded(p: Pack, index: Index) {
    forall i: nat :: i < |p.entries| ==> EndsSomewhere(p, index, p.entries[i].offset)
  }

  ghost predicate EndsSomewhere(p: Pack, index: Index, at: nat) {
    exists n: nat :: Ends(p, index, at, n)
  }

  /** `walk` is a stretch of the walk. */
  ghost predicate IsWalk(p: Pack, index: Index, walk: seq<nat>) {
    forall k, l :: 0 <= k < l == k + 1 < |walk| ==> Next(p, index, walk[k], walk[l])
  }

  /** Some walk comes back to where it started. */
  ghost predicate HasCycle(p: Pack, index: Index) {
    exists walk: seq<nat> :: IsCycle(p, index, walk)
  }

  ghost predicate IsCycle(p: Pack, index: Index, walk: seq<nat>) {
    |walk| > 1 && IsWalk(p, index, walk) && walk[0] == walk[|walk| - 1]
  }

  lemma NextIsUnique(p: Pack, index: Index, at: nat, to: nat, other: nat)
    requires Next(p, index, at, to) && Next(p, index, at, other)
    ensures to == other
  {
  }

  /** Along a walk, every place ends sooner than the one before. */
  lemma {:induction false} EndsAfter(p: Pack, index: Index, walk: seq<nat>, k: nat, n: nat)
    requires IsWalk(p, index, walk) && k < |walk| && Ends(p, index, walk[0], n)
    ensures k <= n && Ends(p, index, walk[k], n - k)
    decreases k
  {
    if k > 0 {
      EndsAfter(p, index, walk, k - 1, n);
      assert Next(p, index, walk[k - 1], walk[k]);
      var to: nat :| Next(p, index, walk[k - 1], to) && Ends(p, index, to, n - (k - 1) - 1);
      NextIsUnique(p, index, walk[k - 1], walk[k], to);
    }
  }

  /** From a cycle the walk does not end. */
  lemma {:induction false} CycleHasNoEnd(p: Pack, index: Index, walk: seq<nat>, n: nat)
    requires IsCycle(p, index, walk)
    ensures !Ends(p, index, walk[0], n)
    decreases n
  {
    if Ends(p, index, walk[0], n) {
      EndsAfter(p, index, walk, |walk| - 1, n);
      CycleHasNoEnd(p, index, walk, n - (|walk| - 1));
    }
  }

  lemma EndsOneLater(p: Pack, index: Index, at: nat, to: nat, n: nat)
    requires Next(p, index, at, to) && Ends(p, index, to, n)
    ensures Ends(p, index, at, n + 1)
  {
  }

  /** The walk ends from a place if and only if it ends from the next one. */
  lemma EndsTogether(p: Pack, index: Index, at: nat, to: nat)
    requires Next(p, index, at, to)
    ensures EndsSomewhere(p, index, at) <==> EndsSomewhere(p, index, to)
  {
    if n: nat :| Ends(p, index, to, n) {
      EndsOneLater(p, index, at, to, n);
    }
    if n: nat :| Ends(p, index, at, n) {
      var next: nat :| Next(p, index, at, next) && Ends(p, index, next, n - 1);
      NextIsUnique(p, index, at, to, next);
    }
  }

  /** Where the walk does not end, it goes on for any number of steps, and ends at no place on the
      way. */
  lemma {:induction false} WalkGoesOnForever(p: Pack, index: Index, at: nat, n: nat) returns (walk: seq<nat>)
    requires !EndsSomewhere(p, index, at)
    ensures |walk| == n + 1 && walk[0] == at && IsWalk(p, index, walk)
    ensures forall k :: 0 <= k <= n ==> !EndsSomewhere(p, index, walk[k])
    decreases n
  {
    walk := [at];
    if n > 0 {
      assert !Ends(p, index, at, 0);
      var to: nat :| Next(p, index, at, to);
      EndsTogether(p, index, at, to);
      hide Next, EndsSomewhere;
      var rest := WalkGoesOnForever(p, index, to, n - 1);
      walk := [at] + rest;
    }
  }

  // ---- where the walk ends ----

  function Offsets(entries: seq<Entry>): set<nat> {
    set i | 0 <= i < |entries| :: entries[i].offset
  }

  lemma {:induction false} SomeEntryAt(entries: seq<Entry>, at: nat) returns (i: nat)
    requires at in Offsets(entries)
    ensures LastAt(entries, at, i)
    decreases |entries|
  {
    i := |entries| - 1;
    if entries[i].offset != at {
      var rest := entries[..i];
      assert at in Offsets(rest) by {
        var k :| 0 <= k < |entries| && entries[k].offset == at;
        assert rest[k].offset == at;
      }
      i := SomeEntryAt(rest, at);
    }
  }

  /** In an accepted pack every entry that is not plain leads to another entry of the pack, so
      the walk ends at a plain entry. */
  lemma GoesOn(p: Pack, index: Index, at: nat, i: nat) returns (to: nat)
    requires Accepted(p) && Indexed(p, index) && LastAt(p.entries, at, i) && !p.entries[i].kind.Plain?
    ensures Next(p, index, at, to) && to in Offsets(p.entries)
  {
    assert HasMeaning(p, i);
    var o: Object :| StandsFor(p, i, o);
    var h: nat :| Denotes(p, i, o, h);
    var j: nat, b: Object :| IsLink(p, i, j, b) && Makes(p.entries[i].payload, b, o) && Denotes(p, j, b, h - 1);
    hide Delta.Applied;
    assert StandsFor(p, j, b);
    if p.entries[i].kind.Ofs? {
      to := p.entries[i].kind.baseAt;
    } else {
      to := index[p.entries[i].kind.base];
      assert StoredAs(p, to, p.entries[i].kind.base);
    }
  }

  /** The walk from an entry ends within `n` steps, or goes on through the pack for `n` steps. */
  lemma {:induction false} EndsOrGoesOn(p: Pack, index: Index, at: nat, n: nat) returns (walk: seq<nat>)
    requires Accepted(p) && Indexed(p, index) && at in Offsets(p.entries)
    ensures Ends(p, index, at, n) || (|walk| == n + 1 && walk[0] == at && IsWalk(p, index, walk) && InPack(p, walk))
    decreases n
  {
    walk := [at];
    var i := SomeEntryAt(p.entries, at);
    hide Next, IsEnd, Accepted, Indexed, Offsets, LastAt;
    if p.entries[i].kind.Plain? {
      PlainIsEnd(p, index, at, i);
    } else if n > 0 {
      var to := GoesOn(p, index, at, i);
      var rest := EndsOrGoesOn(p, index, to, n - 1);
      walk := [at] + rest;
    }
  }

  lemma PlainIsEnd(p: Pack, index: Index, at: nat, i: nat)
    requires LastAt(p.entries, at, i) && p.entries[i].kind.Plain?
    ensures IsEnd(p, index, at)
  {
  }

  ghost predicate InPack(p: Pack, walk: seq<nat>) {
    forall k :: 0 <= k < |walk| ==> walk[k] in Offsets(p.entries)
  }

  /** A walk with more places than the pack has entries comes to some place twice. */
  lemma {:induction false} Pigeonhole(walk: seq<nat>, places: set<nat>) returns (k: nat, l: nat)
    requires |walk| > |places| && forall m :: 0 <= m < |walk| ==> walk[m] in places
    ensures k < l < |walk| && walk[k] == walk[l]
    decreases |walk|
  {
    var x, rest := walk[0], walk[1..];
    if m :| 1 <= m < |walk| && walk[m] == x {
      k, l := 0, m;
    } else {
      k, l := Pigeonhole(rest, places - {x});
      k, l := k + 1, l + 1;
    }
  }

  /** In a pack that was accepted, the walk ends everywhere if and only if no entry comes back
      to itself. */
  lemma GroundedWithoutCycles(p: Pack, index: Index)
    requires Accepted(p) && Indexed(p, index)
    ensures Grounded(p, index) <==> !HasCycle(p, index)
  {
    if walk: seq<nat> :| IsCycle(p, index, walk) {
      CycleStartsInPack(p, index, walk);
      if Grounded(p, index) {
        var i: nat :| i < |p.entries| && p.entries[i].offset == walk[0];
        assert EndsSomewhere(p, index, p.entries[i].offset);
        var n: nat :| Ends(p, index, walk[0], n);
        CycleHasNoEnd(p, index, walk, n);
      }
    }
    if !HasCycle(p, index) {
      forall i: nat | i < |p.entries|
        ensures EndsSomewhere(p, index, p.entries[i].offset)
      {
        EndsWithoutCycles(p, index, p.entries[i].offset);
      }
    }
  }

  lemma CycleStartsInPack(p: Pack, index: Index, walk: seq<nat>)
    requires IsCycle(p, index, walk)
    ensures exists i: nat :: i < |p.entries| && p.entries[i].offset == walk[0]
  {
    assert Next(p, index, walk[0], walk[1]);
  }

  lemma EndsWithoutCycles(p: Pack, index: Index, at: nat)
    requires Accepted(p) && Indexed(p, index) && at in Offsets(p.entries) && !HasCycle(p, index)
    ensures EndsSomewhere(p, index, at)
  {
    var n := |Offsets(p.entries)|;
    var walk := EndsOrGoesOn(p, index, at, n);
    if !Ends(p, index, at, n) {
      LongWalkHasCycle(p, index, walk);
    }
  }

  lemma LongWalkHasCycle(p: Pack, index: Index, walk: seq<nat>)
    requires IsWalk(p, index, walk) && InPack(p, walk) && |walk| > |Offsets(p.entries)|
    ensures HasCycle(p, index)
  {
    hide Next, Offsets;
    var k, l := Pigeonhole(walk, Offsets(p.entries));
    assert IsCycle(p, index, walk[k..l + 1]);
  }

  /** No object is stored twice. */
  ghost predicate DistinctIds(p: Pack) {
    forall i: nat, j: nat, o: Object, q: Object ::
      StandsFor(p, i, o) && StandsFor(p, j, q) && p.hash(o) == p.hash(q) ==> i == j
  }

  /** Where no object is stored twice, the walk ends everywhere. */
  lemma DistinctIdsAreGrounded(p: Pack, index: Index)
    requires Accepted(p) && Indexed(p, index) && DistinctOffsets(p) && DistinctIds(p)
    ensures Grounded(p, index)
  {
    forall i: nat | i < |p.entries|
      ensures EndsSomewhere(p, index, p.entries[i].offset)
    {
      assert HasMeaning(p, i);
      var o: Object :| StandsFor(p, i, o);
      var h: nat :| Denotes(p, i, o, h);
      ChainEnds(p, index, i, o, h);
    }
  }

  lemma {:induction false} ChainEnds(p: Pack, index: Index, i: nat, o: Object, h: nat)
    requires Indexed(p, index) && DistinctOffsets(p) && DistinctIds(p) && i < |p.entries| && Denotes(p, i, o, h)
    ensures Ends(p, index, p.entries[i].offset, h)
    decreases h
  {
    var e := p.entries[i];
    assert LastAt(p.entries, e.offset, i);
    if !e.kind.Plain? {
      var j: nat, b: Object :| IsLink(p, i, j, b) && Makes(e.payload, b, o) && Denotes(p, j, b, h - 1);
      ChainEnds(p, index, j, b, h - 1);
      assert StandsFor(p, j, b);
      if e.kind.Ref? {
        var q: Object :| Stored(p, index[e.kind.base], q) && p.hash(q) == e.kind.base;
        var k: nat :| LastAt(p.entries, index[e.kind.base], k) && StandsFor(p, k, q);
        assert k == j;
      }
      assert Next(p, index, e.offset, p.entries[j].offset);
    }
  }

  // ---- what indexing leaves behind ----

  /** The objects that `ResolveAll` found. */
  ghost predicate AreResolved(p: Pack, objects: seq<Object>) {
    |objects| == |p.entries| && forall i :: 0 <= i < |objects| ==> StandsFor(p, i, objects[i])
  }

  /** What is read at the offset of an entry is what resolving all entries found for it. */
  lemma ReadAgreesWithResolve(p: Pack, objects: seq<Object>, i: nat, o: Object)
    requires CollisionFree(p) && DistinctOffsets(p) && AreResolved(p, objects) && i < |p.entries|
    requires Stored(p, p.entries[i].offset, o)
    ensures o == objects[i]
  {
    var j: nat :| LastAt(p.entries, p.entries[i].offset, j) && StandsFor(p, j, o);
    StandsForIsUnique(p, i, objects[i], o);
  }

  /** The index names the objects found, and for each id an entry that has it. */
  ghost predicate NamesResolved(p: Pack, objects: seq<Object>, index: Index)
    requires |objects| == |p.entries|
  {
    && (forall id :: id in index ==> exists k :: IsNamed(p, objects, index, id, k))
    && (forall k :: 0 <= k < |objects| ==> p.hash(objects[k]) in index)
  }

  predicate IsNamed(p: Pack, objects: seq<Object>, index: Index, id: Oid, k: int)
    requires |objects| == |p.entries|
  {
    id in index && 0 <= k < |objects| && p.hash(objects[k]) == id && p.entries[k].offset == index[id]
  }

  /** An index over the objects that were found is sound and complete for the pack, and the pack
      is accepted: reads of such a pack meet what reading requires. */
  lemma ResolvedIsIndexed(p: Pack, objects: seq<Object>, index: Index)
    requires CollisionFree(p) && DistinctOffsets(p) && AreResolved(p, objects) && NamesResolved(p, objects, index)
    ensures Accepted(p) && Indexed(p, index)
  {
    forall i: nat | i < |p.entries|
      ensures HasMeaning(p, i)
    {
      assert StandsFor(p, i, objects[i]);
    }
    forall id | id in index
      ensures StoredAs(p, index[id], id)
    {
      var k :| IsNamed(p, objects, index, id, k);
      assert LastAt(p.entries, index[id], k) && StandsFor(p, k, objects[k]);
      assert Stored(p, index[id], objects[k]);
    }
    forall i: nat, o: Object | StandsFor(p, i, o)
      ensures p.hash(o) in index
    {
      StandsForIsUnique(p, i, o, objects[i]);
    }
  }

  // ---- the way back up ----

  /** A delta entry on the way down, and its offset. */
  datatype Frame = Frame(at: nat, entry: nat)

  /** Going up from `bottom` through the frames, the last one first, leads to `start`. */
  ghost predicate Climbs(p: Pack, index: Index, start: nat, frames: seq<Frame>, bottom: nat) {
    if frames == [] then bottom == start
    else
      var f := frames[|frames| - 1];
      IsFrame(p, index, f, bottom) && Climbs(p, index, start, frames[..|frames| - 1], f.at)
  }

  ghost predicate IsFrame(p: Pack, index: Index, f: Frame, bottom: nat) {
    LastAt(p.entries, f.at, f.entry) && BaseAt(p.entries[f.entry].kind, index, bottom)
  }

  lemma StoredIsUnique(p: Pack, at: nat, o: Object, q: Object)
    requires CollisionFree(p) && Stored(p, at, o) && Stored(p, at, q)
    ensures o == q
  {
    hide CollisionFree, StandsFor;
    var i: nat :| LastAt(p.entries, at, i) && StandsFor(p, i, o);
    var j: nat :| LastAt(p.entries, at, j) && StandsFor(p, j, q);
    StandsForIsUnique(p, i, o, q);
  }

  /** The object below a frame is the base of its delta. */
  lemma ObjectBelow(p: Pack, index: Index, f: Frame, bottom: nat, b: Object) returns (j: nat)
    requires CollisionFree(p) && IndexIsSound(p, index) && IsFrame(p, index, f, bottom) && Stored(p, bottom, b)
    ensures IsLink(p, f.entry, j, b) && StandsFor(p, j, b)
  {
    j :| LastAt(p.entries, bottom, j) && StandsFor(p, j, b);
    if p.entries[f.entry].kind.Ref? {
      assert StoredAs(p, bottom, p.entries[f.entry].kind.base);
      var q: Object :| Stored(p, bottom, q) && p.hash(q) == p.entries[f.entry].kind.base;
      StoredIsUnique(p, bottom, b, q);
    }
  }

  /** What the delta of a frame makes out of the object below is stored there. */
  lemma FrameMakes(p: Pack, index: Index, f: Frame, bottom: nat, b: Object, o: Object)
    requires CollisionFree(p) && IndexIsSound(p, index) && IsFrame(p, index, f, bottom) && Stored(p, bottom, b)
    requires Makes(p.entries[f.entry].payload, b, o)
    ensures Stored(p, f.at, o)
  {
    var j := ObjectBelow(p, index, f, bottom, b);
    ResolvesTo(p, f.entry, j, b, o);
  }

  /** In an accepted pack the delta of a frame applies. */
  lemma FrameApplies(p: Pack, index: Index, f: Frame, bottom: nat, b: Object)
    requires CollisionFree(p) && IndexIsSound(p, index) && IsFrame(p, index, f, bottom) && Stored(p, bottom, b)
    requires Accepted(p)
    ensures Delta.Applied(b.data, p.entries[f.entry].payload).Ok?
  {
    var j := ObjectBelow(p, index, f, bottom, b);
    assert HasMeaning(p, f.entry);
    if Delta.Applied(b.data, p.entries[f.entry].payload).Err? {
      BadDeltaMeansNothing(p, f.entry, j, b);
    }
  }

  // ---- the reader ----

  /** Everything in the cache is the object at its offset, and the walk from there ends. */
  ghost predicate Consistent(p: Pack, index: Index, m: Table) {
    forall at :: at in m ==> Stored(p, at, Object(m[at].kind, m[at].data)) && EndsSomewhere(p, index, at)
  }

  datatype ReadError = NoEntry | BaseNotInPack | DeltaFailed(error: Delta.Error)

  datatype Read = Got(found: Object) | NotRead(error: ReadError)

  /** An object at the end of the walk, and the frames passed on the way. */
  datatype Descent = Bottom(at: nat, found: Object, frames: seq<Frame>) | Dead(error: ReadError)

  class IndexedPack {
    const pack: Pack
    const index: Index
    const cache: DeltaBaseCache

    /** The index fits the pack and the cache holds nothing wrong. */
    ghost predicate Valid()
      reads cache
    {
      CollisionFree(pack) && IndexIsSound(pack, index) && cache.Valid() && Consistent(pack, index, cache.entries)
    }

    constructor (pack: Pack, index: Index, budget: nat)
      requires CollisionFree(pack) && IndexIsSound(pack, index)
      ensures Valid() && fresh(cache) && this.pack == pack && this.index == index
    {
      this.pack, this.index := pack, index;
      cache := new DeltaBaseCache(budget);
    }

    /** The entry that starts at `at`, or -1. */
    method EntryAt(at: nat) returns (i: int)
      ensures -1 <= i < |pack.entries|
      ensures if i >= 0 then LastAt(pack.entries, at, i) else at !in Offsets(pack.entries)
    {
      i := |pack.entries| - 1;
      while i >= 0
        invariant -1 <= i < |pack.entries|
        invariant forall k :: i < k < |pack.entries| ==> pack.entries[k].offset != at
      {
        if pack.entries[i].offset == at {
          return;
        }
        i := i - 1;
      }
    }

    /** Caches an object that is stored where the cache is told. */
    method Remember(at: nat, o: Object)
      requires Valid() && Stored(pack, at, o) && EndsSomewhere(pack, index, at)
      modifies cache
      ensures Valid()
    {
      ghost var before := cache.entries;
      hide CollisionFree, IndexIsSound, Stored, EndsSomewhere;
      cache.Put(at, o);
      if |o.data| <= cache.budget / 4 {
        CachedStays(pack, index, before, cache.entries, at, o, cache.tick, cache.budget);
      }
    }

    /** One step of the way down. */
    method Visit(at: nat) returns (v: Visited)
      requires Valid()
      modifies cache
      ensures Valid()
      ensures v.Arrived? ==> Stored(pack, at, v.found) && EndsSomewhere(pack, index, at)
      ensures v.Onward? ==> IsFrame(pack, index, Frame(at, v.entry), v.to)
      ensures v.Lost? ==> IsEnd(pack, index, at) && !(Accepted(pack) && Indexed(pack, index) && at in Offsets(pack.entries))
    {
      hide CollisionFree, IndexIsSound, Stored, Accepted, Indexed, LastAt, EndsSomewhere, IsEnd;
      var hit := cache.Get(at);
      if hit.Full? {
        return Arrived(hit.found);
      }
      var i := EntryAt(at);
      if i < 0 {
        NoEntryIsEnd(pack, index, at);
        return Lost(NoEntry);
      }
      var e := pack.entries[i];
      match e.kind
      case Plain(kind) =>
        PlainIsStored(pack, index, at, i);
        Remember(at, Object(kind, e.payload));
        return Arrived(Object(kind, e.payload));
      case Ofs(to) =>
        return Onward(i, to);
      case Ref(id) =>
        if id !in index {
          MissingBase(pack, index, at, i, id);
          return Lost(BaseNotInPack);
        }
        return Onward(i, index[id]);
    }

    /** Walks down until a cached object or a plain entry. */
    method Descend(offset: nat) returns (d: Descent)
      requires Valid() && EndsSomewhere(pack, index, offset)
      modifies cache
      ensures Valid()
      ensures d.Bottom? ==> Stored(pack, d.at, d.found) && EndsSomewhere(pack, index, d.at)
      ensures d.Bottom? ==> Climbs(pack, index, offset, d.frames, d.at)
      ensures Accepted(pack) && Indexed(pack, index) && offset in Offsets(pack.entries) ==> d.Bottom?
    {
      var frames: seq<Frame>, cur := [], offset;
      ghost var steps: nat :| Ends(pack, index, offset, steps);
      hide Valid, Stored, Accepted, Indexed, Offsets, IsFrame, Ends;
      while true
        invariant Valid() && Ends(pack, index, cur, steps) && Climbs(pack, index, offset, frames, cur)
        invariant Accepted(pack) && Indexed(pack, index) && offset in Offsets(pack.entries) ==> cur in Offsets(pack.entries)
        decreases steps
      {
        var v := Visit(cur);
        match v
        case Arrived(found) => return Bottom(cur, found, frames);
        case Lost(error) => return Dead(error);
        case Onward(i, to) =>
          StepsOn(pack, index, cur, i, to, steps);
          ClimbsOn(pack, index, offset, frames, Frame(cur, i), to);
          frames := frames + [Frame(cur, i)];
          cur, steps := to, steps - 1;
      }
    }

    /** Where the walk does not end, no number of steps brings the way down to an object: at none of
        the places on the way is anything cached, then or later. */
    method DescendSteps(offset: nat, n: nat) returns (frames: seq<Frame>, cur: nat)
      requires Valid() && !EndsSomewhere(pack, index, offset)
      modifies cache
      ensures Valid() && |frames| == n && Climbs(pack, index, offset, frames, cur)
      ensures !EndsSomewhere(pack, index, cur) && cur !in cache.entries
      ensures forall k :: 0 <= k < n ==> frames[k].at !in cache.entries
    {
      frames, cur := [], offset;
      hide IsFrame, Ends, Stored, Accepted, Indexed, Offsets, CollisionFree, IndexIsSound, EndsSomewhere, IsEnd;
      for k := 0 to n
        invariant Valid() && |frames| == k && Climbs(pack, index, offset, frames, cur)
        invariant !EndsSomewhere(pack, index, cur) && forall l :: 0 <= l < k ==> !EndsSomewhere(pack, index, frames[l].at)
      {
        var v := Visit(cur);
        EndlessGoesOn(pack, index, cur, v);
        ClimbsOn(pack, index, offset, frames, Frame(cur, v.entry), v.to);
        frames := frames + [Frame(cur, v.entry)];
        cur := v.to;
      }
    }

    /** Reads the object at an offset. */
    method ReadAt(offset: nat) returns (r: Read)
      requires Valid() && EndsSomewhere(pack, index, offset)
      modifies cache
      ensures Valid()
      ensures r.Got? ==> Stored(pack, offset, r.found)
      ensures Accepted(pack) && Indexed(pack, index) && offset in Offsets(pack.entries) ==> r.Got?
    {
      var d := Descend(offset);
      hide EndsSomewhere, CollisionFree, IndexIsSound, Accepted, Indexed, Stored, Offsets, Makes, IsFrame;
      if d.Dead? {
        return NotRead(d.error);
      }
      var found := d.found;
      ghost var at := d.at;
      var k := |d.frames|;
      assert d.frames[..k] == d.frames;
      while k > 0
        invariant 0 <= k <= |d.frames| && Valid()
        invariant Stored(pack, at, found) && EndsSomewhere(pack, index, at)
        invariant Climbs(pack, index, offset, d.frames[..k], at)
      {
        k := k - 1;
        var f := d.frames[k];
        TopFrame(pack, index, offset, d.frames, k, at);
        var applied := Delta.Apply(found.data, pack.entries[f.entry].payload);
        if applied.Err? {
          if Accepted(pack) {
            FrameApplies(pack, index, f, at, found);
          }
          return NotRead(DeltaFailed(applied.error));
        }
        MadeByApply(pack, index, f, at, found, applied.value);
        FrameEnds(pack, index, f, at);
        found := Object(found.kind, applied.value);
        Remember(f.at, found);
        at := f.at;
      }
      r := Got(found);
    }

    /** Reads the object with an id, if the pack has one. */
    method ReadId(id: Oid) returns (r: Lookup)
      requires Valid() && (id in index ==> EndsSomewhere(pack, index, index[id]))
      modifies cache
      ensures Valid()
      ensures r.Absent? <==> id !in index
      ensures r.Present? ==> pack.hash(r.found) == id && Stored(pack, index[id], r.found)
      ensures Accepted(pack) && Indexed(pack, index) ==> !r.Unreadable?
    {
      if id !in index {
        return Absent;
      }
      ghost var q := IndexedObject(pack, index, id);
      var read := ReadAt(index[id]);
      match read
      case NotRead(error) => return Unreadable(error);
      case Got(o) =>
        StoredIsUnique(pack, index[id], o, q);
        return Present(o);
    }
  }

  datatype Visited = Arrived(found: Object) | Onward(entry: nat, to: nat) | Lost(error: ReadError)

  datatype Lookup = Absent | Present(found: Object) | Unreadable(error: ReadError)

  /** What the index names can be read. */
  lemma IndexedObject(p: Pack, index: Index, id: Oid) returns (q: Object)
    requires IndexIsSound(p, index) && id in index
    ensures Stored(p, index[id], q) && p.hash(q) == id && index[id] in Offsets(p.entries)
  {
    assert StoredAs(p, index[id], id);
    q :| Stored(p, index[id], q) && p.hash(q) == id;
    var i: nat :| LastAt(p.entries, index[id], i) && StandsFor(p, i, q);
  }

  lemma ClimbsOn(p: Pack, index: Index, start: nat, frames: seq<Frame>, f: Frame, bottom: nat)
    requires Climbs(p, index, start, frames, f.at) && IsFrame(p, index, f, bottom)
    ensures Climbs(p, index, start, frames + [f], bottom)
  {
    assert (frames + [f])[..|frames|] == frames;
  }

  lemma TopFrame(p: Pack, index: Index, start: nat, frames: seq<Frame>, k: nat, bottom: nat)
    requires k < |frames| && Climbs(p, index, start, frames[..k + 1], bottom)
    ensures frames[k].entry < |p.entries| && IsFrame(p, index, frames[k], bottom)
    ensures Climbs(p, index, start, frames[..k], frames[k].at)
  {
    assert frames[..k + 1][..k] == frames[..k];
  }

  lemma MadeByApply(p: Pack, index: Index, f: Frame, bottom: nat, b: Object, data: Bytes)
    requires CollisionFree(p) && IndexIsSound(p, index) && IsFrame(p, index, f, bottom) && Stored(p, bottom, b)
    requires Delta.Applied(b.data, p.entries[f.entry].payload) == Delta.Ok(data)
    ensures Stored(p, f.at, Object(b.kind, data))
  {
    FrameMakes(p, index, f, bottom, b, Object(b.kind, data));
  }

  /** Where the walk from a base ends, so does the walk from what is made of it. */
  lemma FrameEnds(p: Pack, index: Index, f: Frame, bottom: nat)
    requires IsFrame(p, index, f, bottom) && EndsSomewhere(p, index, bottom)
    ensures EndsSomewhere(p, index, f.at)
  {
    assert Next(p, index, f.at, bottom);
    EndsTogether(p, index, f.at, bottom);
  }

  lemma CachedStays(p: Pack, index: Index, before: Table, after: Table, at: nat, o: Object, tick: nat, budget: nat)
    requires Consistent(p, index, before) && Stored(p, at, o) && EndsSomewhere(p, index, at)
    requires var full := before[at := Cached(o.kind, o.data, tick)];
             after == full || Evicted(full, after, budget / 2)
    ensures Consistent(p, index, after)
  {
  }

  lemma NoEntryIsEnd(p: Pack, index: Index, at: nat)
    requires at !in Offsets(p.entries)
    ensures IsEnd(p, index, at)
  {
  }

  lemma PlainIsStored(p: Pack, index: Index, at: nat, i: nat)
    requires LastAt(p.entries, at, i) && p.entries[i].kind.Plain?
    ensures Stored(p, at, Object(p.entries[i].kind.kind, p.entries[i].payload)) && EndsSomewhere(p, index, at)
  {
    PlainIsEnd(p, index, at, i);
    assert Ends(p, index, at, 0);
    assert Denotes(p, i, Object(p.entries[i].kind.kind, p.entries[i].payload), 0);
  }

  /** An accepted pack misses no base. */
  lemma MissingBase(p: Pack, index: Index, at: nat, i: nat, id: Oid)
    requires LastAt(p.entries, at, i) && p.entries[i].kind == Ref(id) && id !in index
    ensures IsEnd(p, index, at) && !(Accepted(p) && Indexed(p, index))
  {
    if Accepted(p) && Indexed(p, index) {
      var to := GoesOn(p, index, at, i);
    }
  }

  lemma EndlessGoesOn(p: Pack, index: Index, at: nat, v: Visited)
    requires !EndsSomewhere(p, index, at) && !v.Arrived?
    requires v.Onward? ==> IsFrame(p, index, Frame(at, v.entry), v.to)
    requires v.Lost? ==> IsEnd(p, index, at)
    ensures v.Onward? && !EndsSomewhere(p, index, v.to)
  {
    if v.Lost? {
      assert Ends(p, index, at, 0);
    } else {
      assert Next(p, index, at, v.to);
      EndsTogether(p, index, at, v.to);
    }
  }

  lemma StepsOn(p: Pack, index: Index, at: nat, i: nat, to: nat, steps: nat)
    requires IsFrame(p, index, Frame(at, i), to) && Ends(p, index, at, steps)
    ensures steps > 0 && Ends(p, index, to, steps - 1)
    ensures Accepted(p) && Indexed(p, index) ==> to in Offsets(p.entries)
  {
    assert Next(p, index, at, to);
    hide Accepted, Indexed, Offsets;
    if Accepted(p) && Indexed(p, index) {
      var next := GoesOn(p, index, at, i);
      NextIsUnique(p, index, at, to, next);
    }
  }

  // ---- an object stored twice ----

  const EMPTY_BLOB := Object(Blob, [])

  /** The empty blob as a plain entry, and once more as a delta of itself. */
  function Twice(hash: Object -> Oid): Pack {
    Pack([Entry(12, EntryKind.Plain(Blob), []), Entry(20, EntryKind.Ref(hash(EMPTY_BLOB)), [0, 0])], hash)
  }

  /** An index that names the second copy. */
  function SecondCopy(hash: Object -> Oid): Index {
    map[hash(EMPTY_BLOB) := 20]
  }

  lemma TwiceStandsFor(hash: Object -> Oid, i: nat)
    requires i < 2
    ensures StandsFor(Twice(hash), i, EMPTY_BLOB)
  {
    var p := Twice(hash);
    assert Denotes(p, 0, EMPTY_BLOB, 0);
    if i == 1 {
      EmptyDelta();
      assert IsLink(p, 1, 0, EMPTY_BLOB);
      ResolvesTo(p, 1, 0, EMPTY_BLOB, EMPTY_BLOB);
    }
  }

  lemma EmptyDelta()
    ensures Delta.Applied([], [0, 0]) == Delta.Ok([])
  {
    var d: Bytes := [0, 0];
    assert Delta.Varint(d, 0, 0, 0) == Delta.Number(0, 1);
    assert Delta.Varint(d, 1, 0, 0) == Delta.Number(0, 2);
  }

  lemma {:induction false} TwiceDenotes(hash: Object -> Oid, i: nat, o: Object, h: nat)
    requires i < 2 && Denotes(Twice(hash), i, o, h)
    ensures o == EMPTY_BLOB
    decreases h
  {
    var p := Twice(hash);
    if i == 1 {
      var j: nat, b: Object :| IsLink(p, 1, j, b) && Makes(p.entries[1].payload, b, o) && Denotes(p, j, b, h - 1);
      TwiceDenotes(hash, j, b, h - 1);
      EmptyDelta();
    }
  }

  lemma TwiceStandsForOne(hash: Object -> Oid, i: nat, o: Object)
    requires StandsFor(Twice(hash), i, o)
    ensures o == EMPTY_BLOB
  {
    var h: nat :| Denotes(Twice(hash), i, o, h);
    TwiceDenotes(hash, i, o, h);
  }

  /** Whatever the hash: a pack can be accepted, with a sound and complete index and without
      collisions, and yet the walk from one of its entries has no end. */
  lemma AcceptedButEndless(hash: Object -> Oid)
    ensures Accepted(Twice(hash)) && CollisionFree(Twice(hash)) && DistinctOffsets(Twice(hash))
    ensures Indexed(Twice(hash), SecondCopy(hash))
    ensures 20 in Offsets(Twice(hash).entries) && !EndsSomewhere(Twice(hash), SecondCopy(hash), 20)
  {
    var p := Twice(hash);
    TwiceStandsFor(hash, 0);
    TwiceStandsFor(hash, 1);
    forall i: nat, j: nat, o: Object, q: Object | StandsFor(p, i, o) && StandsFor(p, j, q)
      ensures o == q
    {
      TwiceStandsForOne(hash, i, o);
      TwiceStandsForOne(hash, j, q);
    }
    TwiceIsIndexed(hash);
    assert p.entries[1].offset == 20;
    TwiceIsEndless(hash);
  }

  lemma TwiceIsIndexed(hash: Object -> Oid)
    ensures Indexed(Twice(hash), SecondCopy(hash))
  {
    var p := Twice(hash);
    TwiceStandsFor(hash, 1);
    assert LastAt(p.entries, 20, 1);
    assert Stored(p, 20, EMPTY_BLOB);
    assert StoredAs(p, 20, hash(EMPTY_BLOB));
    forall i: nat, o: Object | StandsFor(p, i, o)
      ensures p.hash(o) in SecondCopy(hash)
    {
      TwiceStandsForOne(hash, i, o);
    }
  }

  lemma TwiceIsEndless(hash: Object -> Oid)
    ensures !EndsSomewhere(Twice(hash), SecondCopy(hash), 20)
  {
    var p, index := Twice(hash), SecondCopy(hash);
    assert LastAt(p.entries, 20, 1);
    assert Next(p, index, 20, 20);
    assert IsCycle(p, index, [20, 20]);
    forall n: nat
      ensures !Ends(p, index, 20, n)
    {
      CycleHasNoEnd(p, index, [20, 20], n);
    }
  }
}
