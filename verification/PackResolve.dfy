/** Resolving every entry of a self-contained pack (crates/alt-git-pack/src/index_pack.rs).

    `Denotes` gives the meaning of an entry: a plain entry is the object it stores, a delta
    entry the object that its delta makes out of the meaning of its base, along a chain of
    finite length. The base is the entry at an offset, or any entry whose object has a given
    id. `ResolveAll` goes over the entries pass by pass until nothing is left. */
module PackResolve {
  import opened Objects
  import opened Octets
  import Delta

  type Oid = Bytes

  datatype Object = Object(kind: ObjectKind, data: Bytes)

  datatype EntryKind = Plain(kind: ObjectKind) | Ofs(baseAt: nat) | Ref(base: Oid)

  /** An entry with its inflated payload. */
  datatype Entry = Entry(offset: nat, kind: EntryKind, payload: Bytes)

  /** The entries of a pack, and the hash that names objects. */
  datatype Pack = Pack(entries: seq<Entry>, hash: Object -> Oid)

  datatype Error = BaseOffsetNotFound | BadDelta(error: Delta.Error) | Stuck

  datatype Outcome = Resolved(objects: seq<Object>) | Failed(error: Error)

  datatype Slot = Empty | Full(found: Object)

  // ---- the meaning of an entry ----

  /** The last entry at offset `at`. */
  predicate LastAt(entries: seq<Entry>, at: nat, j: nat) {
    && j < |entries| && entries[j].offset == at
    && forall k :: j < k < |entries| ==> entries[k].offset != at
  }

  /** Entry `j`, with the object `b`, is a base of the delta entry `i`. */
  predicate IsBase(p: Pack, i: nat, j: nat, b: Object)
    requires i < |p.entries|
  {
    match p.entries[i].kind
    case Plain(_) => false
    case Ofs(at) => LastAt(p.entries, at, j)
    case Ref(id) => j < |p.entries| && p.hash(b) == id
  }

  /** The delta `payload` makes `o` out of `b`. */
  predicate Makes(payload: Bytes, b: Object, o: Object) {
    o.kind == b.kind && Delta.Applied(b.data, payload) == Delta.Ok(o.data)
  }

  /** Entry `i` stands for `o`, by a chain of at most `h` deltas. */
  ghost predicate Denotes(p: Pack, i: nat, o: Object, h: nat)
    requires i < |p.entries|
    decreases h
  {
    if p.entries[i].kind.Plain? then o == Object(p.entries[i].kind.kind, p.entries[i].payload)
    else h > 0 && exists j: nat, b: Object :: IsLink(p, i, j, b) && Makes(p.entries[i].payload, b, o) && Denotes(p, j, b, h - 1)
  }

  predicate IsLink(p: Pack, i: nat, j: nat, b: Object)
    requires i < |p.entries|
  {
    j < |p.entries| && IsBase(p, i, j, b)
  }

  /** Entry `i` stands for `o`. */
  ghost predicate StandsFor(p: Pack, i: nat, o: Object) {
    i < |p.entries| && exists h: nat :: Denotes(p, i, o, h)
  }

  /** Entry `i` has a finite chain. */
  ghost predicate HasMeaning(p: Pack, i: nat) {
    exists o: Object :: StandsFor(p, i, o)
  }

  /** No two different objects of the pack have the same id. */
  ghost predicate CollisionFree(p: Pack) {
    forall i: nat, j: nat, o: Object, q: Object ::
      StandsFor(p, i, o) && StandsFor(p, j, q) && p.hash(o) == p.hash(q) ==> o == q
  }

  /** An entry stands for at most one object. */
  lemma {:induction false} MeaningIsUnique(p: Pack, i: nat, o: Object, h: nat, q: Object, g: nat)
    requires CollisionFree(p) && i < |p.entries| && Denotes(p, i, o, h) && Denotes(p, i, q, g)
    ensures o == q
    decreases h
  {
    if !p.entries[i].kind.Plain? {
      var j: nat, b: Object :| IsLink(p, i, j, b) && Makes(p.entries[i].payload, b, o) && Denotes(p, j, b, h - 1);
      var k: nat, c: Object :| IsLink(p, i, k, c) && Makes(p.entries[i].payload, c, q) && Denotes(p, k, c, g - 1);
      assert StandsFor(p, j, b) && StandsFor(p, k, c);
      if p.entries[i].kind.Ofs? {
        assert j == k;
        MeaningIsUnique(p, j, b, h - 1, c, g - 1);
      }
      hide Delta.Applied;
      assert b == c;
    }
  }

  lemma StandsForIsUnique(p: Pack, i: nat, o: Object, q: Object)
    requires CollisionFree(p) && StandsFor(p, i, o) && StandsFor(p, i, q)
    ensures o == q
  {
    var h: nat :| Denotes(p, i, o, h);
    var g: nat :| Denotes(p, i, q, g);
    MeaningIsUnique(p, i, o, h, q, g);
  }

  // ---- partial results ----

  /** Every object found so far is the meaning of its entry. */
  ghost predicate Sound(p: Pack, slots: seq<Slot>) {
    && |slots| == |p.entries|
    && forall i :: 0 <= i < |slots| && slots[i].Full? ==> StandsFor(p, i, slots[i].found)
  }

  /** The base of the delta entry `i` is not resolved yet. */
  ghost predicate Blocked(p: Pack, slots: seq<Slot>, i: nat)
    requires i < |p.entries| == |slots|
  {
    match p.entries[i].kind
    case Plain(_) => false
    case Ofs(at) => exists j: nat :: LastAt(p.entries, at, j) && slots[j].Empty?
    case Ref(id) => forall j :: 0 <= j < |slots| && slots[j].Full? ==> p.hash(slots[j].found) != id
  }

  /** Nothing more can be resolved. */
  ghost predicate AllBlocked(p: Pack, slots: seq<Slot>)
    requires |p.entries| == |slots|
  {
    forall i :: 0 <= i < |slots| && slots[i].Empty? ==> Blocked(p, slots, i)
  }

  /** When nothing more can be resolved, the entries left over have no finite chain. */
  lemma {:induction false} LeftOverHasNoChain(p: Pack, slots: seq<Slot>, i: nat, o: Object, h: nat)
    requires CollisionFree(p) && Sound(p, slots) && AllBlocked(p, slots)
    requires i < |slots| && slots[i].Empty?
    ensures !Denotes(p, i, o, h)
    decreases h
  {
    if Denotes(p, i, o, h) {
      assert Blocked(p, slots, i);
      var j: nat, b: Object :| IsLink(p, i, j, b) && Makes(p.entries[i].payload, b, o) && Denotes(p, j, b, h - 1);
      assert StandsFor(p, j, b);
      if slots[j].Empty? {
        LeftOverHasNoChain(p, slots, j, b, h - 1);
      } else {
        StandsForIsUnique(p, j, b, slots[j].found);
      }
    }
  }

  lemma LeftOverMeansNothing(p: Pack, slots: seq<Slot>, i: nat)
    requires CollisionFree(p) && Sound(p, slots) && AllBlocked(p, slots)
    requires i < |slots| && slots[i].Empty?
    ensures !HasMeaning(p, i)
  {
    if HasMeaning(p, i) {
      var o: Object :| StandsFor(p, i, o);
      var h: nat :| Denotes(p, i, o, h);
      LeftOverHasNoChain(p, slots, i, o, h);
    }
  }

  /** A resolved base whose delta applies gives the entry its meaning. */
  lemma ResolvesTo(p: Pack, i: nat, j: nat, b: Object, o: Object)
    requires i < |p.entries| && IsLink(p, i, j, b) && StandsFor(p, j, b) && Makes(p.entries[i].payload, b, o)
    ensures StandsFor(p, i, o)
  {
    var h: nat :| Denotes(p, j, b, h);
    assert Denotes(p, i, o, h + 1);
  }

  /** A delta that does not apply to its base leaves its entry without meaning. */
  lemma BadDeltaMeansNothing(p: Pack, i: nat, j: nat, b: Object)
    requires CollisionFree(p) && i < |p.entries| && IsLink(p, i, j, b) && StandsFor(p, j, b)
    requires Delta.Applied(b.data, p.entries[i].payload).Err?
    ensures !HasMeaning(p, i)
  {
    hide Delta.Applied;
    if HasMeaning(p, i) {
      var o: Object :| StandsFor(p, i, o);
      var h: nat :| Denotes(p, i, o, h);
      var k: nat, c: Object :| IsLink(p, i, k, c) && Makes(p.entries[i].payload, c, o) && Denotes(p, k, c, h - 1);
      assert StandsFor(p, k, c);
      if p.entries[i].kind.Ofs? {
        StandsForIsUnique(p, j, b, c);
      }
    }
  }

  /** A base offset at which no entry starts leaves its entry without meaning. */
  lemma NoBaseMeansNothing(p: Pack, i: nat, at: nat)
    requires i < |p.entries| && p.entries[i].kind == Ofs(at)
    requires forall k :: 0 <= k < |p.entries| ==> p.entries[k].offset != at
    ensures !HasMeaning(p, i)
  {
  }

  // ---- the algorithm ----

  /** `byOffset` finds the last entry at every offset. */
  predicate IsOffsetMap(entries: seq<Entry>, byOffset: map<nat, nat>) {
    && (forall at :: at in byOffset ==> LastAt(entries, at, byOffset[at]))
    && (forall k :: 0 <= k < |entries| ==> entries[k].offset in byOffset)
  }

  method MapOffsets(entries: seq<Entry>) returns (byOffset: map<nat, nat>)
    ensures IsOffsetMap(entries, byOffset)
  {
    byOffset := map[];
    for i := 0 to |entries|
      invariant IsOffsetMap(entries[..i], byOffset)
    {
      byOffset := byOffset[entries[i].offset := i];
    }
    assert entries[..|entries|] == entries;
  }

  /** The first resolved entry whose object has the id `id`. */
  method FindResolved(p: Pack, slots: seq<Slot>, id: Oid) returns (j: int)
    ensures -1 <= j < |slots|
    ensures j >= 0 ==> slots[j].Full? && p.hash(slots[j].found) == id
    ensures forall k :: 0 <= k < (if j < 0 then |slots| else j) && slots[k].Full? ==> p.hash(slots[k].found) != id
  {
    for k := 0 to |slots|
      invariant forall m :: 0 <= m < k && slots[m].Full? ==> p.hash(slots[m].found) != id
    {
      if slots[k].Full? && p.hash(slots[k].found) == id {
        return k;
      }
    }
    j := -1;
  }

  method PlainObjects(p: Pack) returns (slots: seq<Slot>)
    ensures Sound(p, slots)
    ensures forall i :: 0 <= i < |slots| ==> (slots[i].Full? <==> p.entries[i].kind.Plain?)
  {
    slots := [];
    for i := 0 to |p.entries|
      invariant |slots| == i
      invariant forall k :: 0 <= k < i ==>
        slots[k] == if p.entries[k].kind.Plain? then Full(Object(p.entries[k].kind.kind, p.entries[k].payload)) else Empty
    {
      var e := p.entries[i];
      slots := slots + [if e.kind.Plain? then Full(Object(e.kind.kind, e.payload)) else Empty];
    }
    forall i | 0 <= i < |slots| && slots[i].Full?
      ensures StandsFor(p, i, slots[i].found)
    {
      assert Denotes(p, i, slots[i].found, 0);
    }
  }

  /** What one visit to an unresolved entry brings. */
  datatype Attempt = Found(found: Object) | Later | Broken(error: Error)

  method Attack(p: Pack, slots: seq<Slot>, byOffset: map<nat, nat>, i: nat) returns (r: Attempt)
    requires Sound(p, slots) && IsOffsetMap(p.entries, byOffset)
    requires i < |slots| && !p.entries[i].kind.Plain?
    ensures r.Found? ==> StandsFor(p, i, r.found)
    ensures r.Later? ==> Blocked(p, slots, i)
    ensures r.Broken? ==> r.error != Stuck && (CollisionFree(p) ==> !HasMeaning(p, i))
  {
    var e := p.entries[i];
    var j: int;
    if e.kind.Ofs? {
      if e.kind.baseAt !in byOffset {
        NoBaseMeansNothing(p, i, e.kind.baseAt);
        return Broken(BaseOffsetNotFound);
      }
      j := byOffset[e.kind.baseAt];
    } else {
      j := FindResolved(p, slots, e.kind.base);
      if j < 0 {
        return Later;
      }
    }
    if slots[j].Empty? {
      assert LastAt(p.entries, e.kind.baseAt, j);
      return Later;
    }
    var b := slots[j].found;
    assert StandsFor(p, j, b) && IsLink(p, i, j, b);
    var applied := Delta.Apply(b.data, e.payload);
    if applied.Err? {
      if CollisionFree(p) {
        BadDeltaMeansNothing(p, i, j, b);
      }
      return Broken(BadDelta(applied.error));
    }
    r := Found(Object(b.kind, applied.value));
    assert Makes(e.payload, b, r.found);
    ResolvesTo(p, i, j, b, r.found);
  }

  /** The entries not resolved yet. */
  ghost function Open(slots: seq<Slot>): set<nat> {
    set i: nat | i < |slots| && slots[i].Empty?
  }

  /** What one pass over the entries brings. */
  datatype Pass = Pass(slots: seq<Slot>, progressed: bool, unresolved: bool) | Halt(error: Error)

  /** Once over the entries, resolving what can be resolved. */
  method ResolvePass(p: Pack, before: seq<Slot>, byOffset: map<nat, nat>) returns (r: Pass)
    requires Sound(p, before) && IsOffsetMap(p.entries, byOffset) && PlainIsFull(p, before)
    ensures r.Pass? ==> Sound(p, r.slots) && PlainIsFull(p, r.slots) && Open(r.slots) <= Open(before)
    ensures r.Pass? ==> (r.unresolved <==> Open(r.slots) != {})
    ensures r.Pass? ==> if r.progressed then Open(r.slots) < Open(before) else AllBlocked(p, r.slots)
    ensures r.Halt? ==> r.error != Stuck && (CollisionFree(p) ==> exists i: nat :: i < |p.entries| && !HasMeaning(p, i))
  {
    var slots, progressed, unresolved := before, false, false;
    ghost var found, waiting := 0, 0;
    hide Blocked, StandsFor, HasMeaning, IsOffsetMap, Open, AllBlocked;
    for i := 0 to |p.entries|
      invariant Sound(p, slots) && PlainIsFull(p, slots)
      invariant forall k :: 0 <= k < |slots| && (k >= i || before[k].Full?) ==> slots[k] == before[k]
      invariant if unresolved then 0 <= waiting < i && slots[waiting].Empty? else forall k :: 0 <= k < i ==> slots[k].Full?
      invariant if progressed then 0 <= found < i && before[found].Empty? && slots[found].Full? else slots == before
      invariant !progressed ==> forall k :: 0 <= k < i && slots[k].Empty? ==> Blocked(p, slots, k)
    {
      if slots[i].Empty? {
        var attempt := Attack(p, slots, byOffset, i);
        match attempt
        case Broken(error) => return Halt(error);
        case Later => unresolved, waiting := true, i;
        case Found(o) => slots, progressed, found := slots[i := Full(o)], true, i;
      }
    }
    r := Pass(slots, progressed, unresolved);
    OpenAfterPass(before, slots, found, waiting);
    assert !progressed ==> AllBlocked(p, slots) by {
      AllBlockedFrom(p, slots, progressed);
    }
  }

  lemma AllBlockedFrom(p: Pack, slots: seq<Slot>, progressed: bool)
    requires |slots| == |p.entries|
    requires !progressed ==> forall k :: 0 <= k < |slots| && slots[k].Empty? ==> Blocked(p, slots, k)
    ensures !progressed ==> AllBlocked(p, slots)
  {
  }

  lemma OpenAfterPass(before: seq<Slot>, slots: seq<Slot>, found: nat, waiting: nat)
    requires |slots| == |before| && forall k :: 0 <= k < |slots| && before[k].Full? ==> slots[k].Full?
    ensures Open(slots) <= Open(before)
    ensures waiting < |slots| && slots[waiting].Empty? ==> Open(slots) != {}
    ensures (forall k :: 0 <= k < |slots| ==> slots[k].Full?) ==> Open(slots) == {}
    ensures found < |slots| && before[found].Empty? && slots[found].Full? ==> Open(slots) < Open(before)
  {
    if waiting < |slots| && slots[waiting].Empty? {
      assert waiting in Open(slots);
    }
    if found < |slots| && before[found].Empty? && slots[found].Full? {
      assert found in Open(before) && found !in Open(slots);
    }
  }

  predicate PlainIsFull(p: Pack, slots: seq<Slot>) {
    && |slots| == |p.entries|
    && forall i :: 0 <= i < |slots| && p.entries[i].kind.Plain? ==> slots[i].Full?
  }

  /** Resolves all entries, or says why it cannot. `left` are the entries left over. */
  method ResolveAll(p: Pack) returns (r: Outcome, ghost left: set<nat>)
    ensures r.Resolved? ==> |r.objects| == |p.entries|
    ensures r.Resolved? ==> forall i :: 0 <= i < |r.objects| ==> StandsFor(p, i, r.objects[i])
    ensures CollisionFree(p) ==> (r.Resolved? <==> forall i: nat :: i < |p.entries| ==> HasMeaning(p, i))
    ensures r == Failed(Stuck) ==> left != {}
    ensures r == Failed(Stuck) ==> forall i: nat :: i < |p.entries| && i !in left ==> HasMeaning(p, i)
    ensures r == Failed(Stuck) && CollisionFree(p) ==> forall i: nat :: i in left ==> i < |p.entries| && !HasMeaning(p, i)
  {
    var byOffset := MapOffsets(p.entries);
    var slots := PlainObjects(p);
    left := {};
    while true
      invariant Sound(p, slots) && PlainIsFull(p, slots)
      decreases Open(slots)
    {
      var pass := ResolvePass(p, slots, byOffset);
      if pass.Halt? {
        return Failed(pass.error), {};
      }
      slots := pass.slots;
      if !pass.unresolved {
        break;
      }
      if !pass.progressed {
        left := Open(slots);
        StuckMeansNothing(p, slots);
        return Failed(Stuck), left;
      }
    }
    assert forall i: nat :: i < |slots| && slots[i].Empty? ==> i in Open(slots);
    var objects := Unwrap(slots);
    r := Resolved(objects);
    forall i: nat | i < |p.entries|
      ensures StandsFor(p, i, objects[i]) && HasMeaning(p, i)
    {
      assert StandsFor(p, i, slots[i].found);
    }
  }

  lemma StuckMeansNothing(p: Pack, slots: seq<Slot>)
    requires Sound(p, slots) && AllBlocked(p, slots)
    ensures forall i: nat :: i < |p.entries| && i !in Open(slots) ==> HasMeaning(p, i)
    ensures CollisionFree(p) ==> forall i: nat :: i in Open(slots) ==> !HasMeaning(p, i)
  {
    forall i: nat | i < |p.entries| && i !in Open(slots)
      ensures HasMeaning(p, i)
    {
      assert StandsFor(p, i, slots[i].found);
    }
    if CollisionFree(p) {
      forall i: nat | i in Open(slots)
        ensures !HasMeaning(p, i)
      {
        LeftOverMeansNothing(p, slots, i);
      }
    }
  }

  method Unwrap(slots: seq<Slot>) returns (objects: seq<Object>)
    requires forall i :: 0 <= i < |slots| ==> slots[i].Full?
    ensures |objects| == |slots|
    ensures forall i :: 0 <= i < |slots| ==> slots[i] == Full(objects[i])
  {
    objects := [];
    for i := 0 to |slots|
      invariant |objects| == i
      invariant forall k :: 0 <= k < i ==> slots[k] == Full(objects[k])
    {
      objects := objects + [slots[i].found];
    }
  }
}
