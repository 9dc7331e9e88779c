/** The lockstep diff of two trees (crates/alt-cli/src/log_cmd.rs).

    `DiffTrees` walks the entries of two trees side by side and reports changed leaves. A
    subtree that both sides share is skipped without being read. Whatever the order of the
    entries, what is reported turns the leaves of the old tree into those of the new one. When
    the entries of every tree are in byte order, nothing unchanged is reported. */
module TreeDiff {
  import opened ByteOrder
  import opened Octets

  type Oid = Bytes

  type Path = Bytes

  const SLASH: Byte := 47

  newtype Digit = x: int | 0 <= x < 8

  /** The octal digits of a mode as the tree spells them. */
  type Mode = s: seq<Digit> | 1 <= |s| <= 6 witness [0]

  function Value(mode: seq<Digit>): nat {
    if mode == [] then 0 else 8 * Value(mode[..|mode| - 1]) + mode[|mode| - 1] as int
  }

  /** The four bits of the file type, of which 4 is a directory. */
  predicate IsTree(mode: seq<Digit>) {
    Value(mode) / 0x1000 % 16 == 4
  }

  datatype Entry = Entry(mode: Mode, name: Bytes, oid: Oid)

  /** The trees that can be read. A tree does not contain itself, so each has a height. */
  datatype Store = Store(trees: map<Oid, seq<Entry>>, height: map<Oid, nat>) {
    ghost predicate Valid() {
      && trees.Keys == height.Keys
      && forall t :: t in trees ==> LowerThan(trees[t], height[t] + 1)
    }

    function Height(oid: Oid): nat
      requires trees.Keys == height.Keys
    {
      if oid in trees then height[oid] + 1 else 0
    }

    /** All subtrees in `entries` are lower than `h`. */
    ghost predicate LowerThan(entries: seq<Entry>, h: nat)
      requires trees.Keys == height.Keys
    {
      forall k :: 0 <= k < |entries| && IsTree(entries[k].mode) ==> Height(entries[k].oid) < h
    }
  }

  // ---- leaves ----

  /** A leaf of a flattened tree, or a subtree that cannot be read. */
  datatype Item = File(path: Path, oid: Oid, mode: nat) | Unread(path: Path, oid: Oid)

  function Join(prefix: Path, name: Bytes): Path {
    if prefix == [] then name else prefix + [SLASH] + name
  }

  ghost function Leaves(s: Store, prefix: Path, oid: Oid): multiset<Item>
    requires s.Valid()
    decreases s.Height(oid), 1, 0
  {
    if oid in s.trees then LeavesOf(s, s.height[oid] + 1, prefix, s.trees[oid]) else multiset{Unread(prefix, oid)}
  }

  ghost function LeavesOf(s: Store, h: nat, prefix: Path, entries: seq<Entry>): multiset<Item>
    requires s.Valid() && s.LowerThan(entries, h)
    decreases h, 0, |entries|
  {
    if entries == [] then multiset{}
    else EntryLeaves(s, h, Join(prefix, entries[0].name), entries[0]) + LeavesOf(s, h, prefix, entries[1..])
  }

  ghost function EntryLeaves(s: Store, h: nat, path: Path, e: Entry): multiset<Item>
    requires s.Valid() && (IsTree(e.mode) ==> s.Height(e.oid) < h)
    decreases h, 0, 0
  {
    if IsTree(e.mode) then Leaves(s, path, e.oid) else multiset{FileAt(path, e)}
  }

  function FileAt(path: Path, e: Entry): Item {
    File(path, e.oid, Value(e.mode))
  }

  // ---- the diff ----

  /** One side of a diff. */
  datatype Side = Absent | Tree(oid: Oid)

  /** A reported leaf. Paths of both leaves of a change are the same. */
  datatype Change = Deleted(before: Item) | Added(after: Item) | Changed(before: Item, after: Item)

  /** All that was reported, until a tree could not be read. */
  datatype Outcome = Done(changes: seq<Change>) | Failed(changes: seq<Change>, missing: Oid)

  function Weight(s: Store, side: Side): nat
    requires s.trees.Keys == s.height.Keys
  {
    if side.Tree? then s.Height(side.oid) else 0
  }

  predicate Readable(s: Store, side: Side) {
    side.Tree? ==> side.oid in s.trees
  }

  function EntriesOf(s: Store, side: Side): seq<Entry>
    requires Readable(s, side)
  {
    if side.Tree? then s.trees[side.oid] else []
  }

  function Then(first: Outcome, second: Outcome): Outcome {
    if first.Failed? then first
    else if second.Failed? then Failed(first.changes + second.changes, second.missing)
    else Done(first.changes + second.changes)
  }

  ghost function DiffTrees(s: Store, prefix: Path, a: Side, b: Side): Outcome
    requires s.Valid()
    decreases Weight(s, a) + Weight(s, b), 1, 0
  {
    if a == b then Done([])
    else if !Readable(s, a) then Failed([], a.oid)
    else if !Readable(s, b) then Failed([], b.oid)
    else Lockstep(s, Weight(s, a), Weight(s, b), prefix, EntriesOf(s, a), EntriesOf(s, b))
  }

  ghost function Lockstep(s: Store, g: nat, h: nat, prefix: Path, xs: seq<Entry>, ys: seq<Entry>): Outcome
    requires s.Valid() && s.LowerThan(xs, g) && s.LowerThan(ys, h)
    decreases g + h, 0, |xs| + |ys|
  {
    if xs == [] && ys == [] then Done([])
    else if ys == [] || (xs != [] && BytesLess(xs[0].name, ys[0].name)) then
      Then(OneSide(s, g, Join(prefix, xs[0].name), xs[0], true), Lockstep(s, g, h, prefix, xs[1..], ys))
    else if xs == [] || xs[0].name != ys[0].name then
      Then(OneSide(s, h, Join(prefix, ys[0].name), ys[0], false), Lockstep(s, g, h, prefix, xs, ys[1..]))
    else
      Then(BothSides(s, g, h, Join(prefix, ys[0].name), xs[0], ys[0]), Lockstep(s, g, h, prefix, xs[1..], ys[1..]))
  }

  /** An entry that only one side has. */
  ghost function OneSide(s: Store, h: nat, path: Path, e: Entry, deleted: bool): Outcome
    requires s.Valid() && (IsTree(e.mode) ==> s.Height(e.oid) < h)
    decreases h, 0, 0
  {
    if IsTree(e.mode) then
      if deleted then DiffTrees(s, path, Tree(e.oid), Absent) else DiffTrees(s, path, Absent, Tree(e.oid))
    else Done([if deleted then Deleted(FileAt(path, e)) else Added(FileAt(path, e))])
  }

  /** Two entries with the same name. */
  ghost function BothSides(s: Store, g: nat, h: nat, path: Path, x: Entry, y: Entry): Outcome
    requires s.Valid() && (IsTree(x.mode) ==> s.Height(x.oid) < g) && (IsTree(y.mode) ==> s.Height(y.oid) < h)
    decreases g + h, 0, 0
  {
    if x.oid == y.oid && x.mode == y.mode then Done([])
    else if IsTree(x.mode) && IsTree(y.mode) then DiffTrees(s, path, Tree(x.oid), Tree(y.oid))
    else if IsTree(x.mode) then Then(DiffTrees(s, path, Tree(x.oid), Absent), Done([Added(FileAt(path, y))]))
    else if IsTree(y.mode) then Then(Done([Deleted(FileAt(path, x))]), DiffTrees(s, path, Absent, Tree(y.oid)))
    else Done([Changed(FileAt(path, x), FileAt(path, y))])
  }

  // ---- the walk ----

  lemma NothingLeft(s: Store, g: nat, h: nat, prefix: Path)
    requires s.Valid()
    ensures Lockstep(s, g, h, prefix, [], []) == Done([])
  {
  }

  lemma ThenNothing(o: Outcome)
    ensures Then(Done([]), o) == o && Then(o, Done([])) == o
  {
    assert [] + o.changes == o.changes && o.changes + [] == o.changes;
  }

  lemma ThenTwice(a: Outcome, b: Outcome, c: Outcome)
    ensures Then(Then(a, b), c) == Then(a, Then(b, c))
  {
    if a.Done? && b.Done? {
      assert a.changes + b.changes + c.changes == a.changes + (b.changes + c.changes);
    }
  }

  /** The callback takes `room` changes and refuses the next one. `after` is `before` with what
      `o` reports, as far as there is room. */
  ghost predicate Took(room: nat, before: seq<Change>, after: seq<Change>, ok: bool, o: Outcome) {
    var all := before + o.changes;
    if |all| <= room then after == all && (ok <==> o.Done?) else after == all[..room] && !ok
  }

  lemma TookNothing(room: nat, before: seq<Change>)
    requires |before| <= room
    ensures Took(room, before, before, true, Done([]))
  {
  }

  lemma TookThen(room: nat, before: seq<Change>, mid: seq<Change>, after: seq<Change>, first: Outcome, ok: bool, second: Outcome)
    requires Took(room, before, mid, true, first) && Took(room, mid, after, ok, second)
    ensures Took(room, before, after, ok, Then(first, second))
  {
    assert before + first.changes + second.changes == before + (first.changes + second.changes);
  }

  lemma TookNoMore(room: nat, before: seq<Change>, after: seq<Change>, first: Outcome, second: Outcome)
    requires Took(room, before, after, false, first)
    ensures Took(room, before, after, false, Then(first, second))
  {
    if first.Done? {
      var all, more := before + first.changes, before + Then(first, second).changes;
      assert more == all + second.changes;
      assert more[..room] == all[..room];
    }
  }

  /** One round of the walk: the old entry comes first. */
  lemma TakeOld(s: Store, g: nat, h: nat, prefix: Path, xs: seq<Entry>, ys: seq<Entry>, i: nat, j: nat, so: Outcome)
    requires s.Valid() && s.LowerThan(xs, g) && s.LowerThan(ys, h) && i < |xs| && j <= |ys|
    requires j == |ys| || BytesLess(xs[i].name, ys[j].name)
    ensures Then(so, Lockstep(s, g, h, prefix, xs[i..], ys[j..]))
         == Then(Then(so, OneSide(s, g, Join(prefix, xs[i].name), xs[i], true)), Lockstep(s, g, h, prefix, xs[i + 1..], ys[j..]))
  {
    hide BytesLess, OneSide, BothSides, Join, IsTree, Then;
    assert xs[i..][0] == xs[i] && xs[i..][1..] == xs[i + 1..];
    assert ys[j..] != [] ==> ys[j..][0] == ys[j];
    ThenTwice(so, OneSide(s, g, Join(prefix, xs[i].name), xs[i], true), Lockstep(s, g, h, prefix, xs[i + 1..], ys[j..]));
  }

  /** The new entry comes first. */
  lemma TakeNew(s: Store, g: nat, h: nat, prefix: Path, xs: seq<Entry>, ys: seq<Entry>, i: nat, j: nat, so: Outcome)
    requires s.Valid() && s.LowerThan(xs, g) && s.LowerThan(ys, h) && i <= |xs| && j < |ys|
    requires i == |xs| || (xs[i].name != ys[j].name && !BytesLess(xs[i].name, ys[j].name))
    ensures Then(so, Lockstep(s, g, h, prefix, xs[i..], ys[j..]))
         == Then(Then(so, OneSide(s, h, Join(prefix, ys[j].name), ys[j], false)), Lockstep(s, g, h, prefix, xs[i..], ys[j + 1..]))
  {
    hide BytesLess, OneSide, BothSides, Join, IsTree, Then;
    assert ys[j..][0] == ys[j] && ys[j..][1..] == ys[j + 1..];
    assert xs[i..] != [] ==> xs[i..][0] == xs[i];
    ThenTwice(so, OneSide(s, h, Join(prefix, ys[j].name), ys[j], false), Lockstep(s, g, h, prefix, xs[i..], ys[j + 1..]));
  }

  /** Both have the name. */
  lemma TakeBoth(s: Store, g: nat, h: nat, prefix: Path, xs: seq<Entry>, ys: seq<Entry>, i: nat, j: nat, so: Outcome)
    requires s.Valid() && s.LowerThan(xs, g) && s.LowerThan(ys, h) && i < |xs| && j < |ys|
    requires xs[i].name == ys[j].name && !BytesLess(xs[i].name, ys[j].name)
    ensures Then(so, Lockstep(s, g, h, prefix, xs[i..], ys[j..]))
         == Then(Then(so, BothSides(s, g, h, Join(prefix, ys[j].name), xs[i], ys[j])), Lockstep(s, g, h, prefix, xs[i + 1..], ys[j + 1..]))
  {
    hide BytesLess, OneSide, BothSides, Join, IsTree, Then;
    assert xs[i..][0] == xs[i] && xs[i..][1..] == xs[i + 1..];
    assert ys[j..][0] == ys[j] && ys[j..][1..] == ys[j + 1..];
    ThenTwice(so, BothSides(s, g, h, Join(prefix, ys[j].name), xs[i], ys[j]), Lockstep(s, g, h, prefix, xs[i + 1..], ys[j + 1..]));
  }

  /** A walk with its shared path buffer, everything the callback has taken so far, and how much
      it takes before it fails. */
  class Walker {
    const store: Store
    const room: nat
    var prefix: Path
    var emitted: seq<Change>

    constructor (store: Store, room: nat)
      ensures this.store == store && this.room == room && prefix == [] && emitted == []
    {
      this.store, this.room, prefix, emitted := store, room, [], [];
    }

    /** What was reported since `before` is what `o` reports, as far as the callback goes along. */
    ghost predicate Reported(before: seq<Change>, ok: bool, o: Outcome)
      reads this
    {
      Took(room, before, emitted, ok, o)
    }

    method Emit(c: Change) returns (ok: bool)
      requires |emitted| <= room
      modifies this`emitted
      ensures |emitted| <= room && Reported(old(emitted), ok, Done([c]))
    {
      if |emitted| == room {
        return false;
      }
      emitted := emitted + [c];
      ok := true;
    }

    /** Puts `name` behind the path and returns how long the path was. */
    method Push(name: Bytes) returns (mark: nat)
      modifies this`prefix
      ensures prefix == Join(old(prefix), name)
      ensures mark == |old(prefix)| <= |prefix| && prefix[..mark] == old(prefix)
    {
      mark := |prefix|;
      if prefix != [] {
        prefix := prefix + [SLASH];
      }
      prefix := prefix + name;
    }

    /** Reports the difference of two trees below the path. */
    method Diff(a: Side, b: Side) returns (ok: bool)
      requires store.Valid() && |emitted| <= room
      modifies this
      ensures prefix == old(prefix) && |emitted| <= room
      ensures Reported(old(emitted), ok, DiffTrees(store, old(prefix), a, b))
      decreases Weight(store, a) + Weight(store, b), 1, 0
    {
      if a == b {
        return true;
      }
      if (a.Tree? && a.oid !in store.trees) || (b.Tree? && b.oid !in store.trees) {
        return false;
      }
      var xs := if a.Tree? then store.trees[a.oid] else [];
      var ys := if b.Tree? then store.trees[b.oid] else [];
      ok := WalkEntries(Weight(store, a), Weight(store, b), xs, ys);
    }

    method WalkEntries(g: nat, h: nat, xs: seq<Entry>, ys: seq<Entry>) returns (ok: bool)
      requires store.Valid() && store.LowerThan(xs, g) && store.LowerThan(ys, h) && |emitted| <= room
      modifies this
      ensures prefix == old(prefix) && |emitted| <= room
      ensures Reported(old(emitted), ok, Lockstep(store, g, h, old(prefix), xs, ys))
      decreases g + h, 0, 3
    {
      hide BytesLess, OneSide, BothSides, Join, IsTree, Then, Lockstep, Took;
      TookNothing(room, emitted);
      var i, j := 0, 0;
      ghost var so, piece := Done([]), Done([]);
      assert xs[0..] == xs && ys[0..] == ys;
      ThenNothing(Lockstep(store, g, h, prefix, xs, ys));
      while i < |xs| || j < |ys|
        invariant i <= |xs| && j <= |ys| && prefix == old(prefix) && |emitted| <= room
        invariant Reported(old(emitted), true, so)
        invariant Lockstep(store, g, h, prefix, xs, ys) == Then(so, Lockstep(store, g, h, prefix, xs[i..], ys[j..]))
        decreases |xs| - i + |ys| - j
      {
        ghost var before := emitted;
        if j == |ys| || (i < |xs| && BytesLess(xs[i].name, ys[j].name)) {
          TakeOld(store, g, h, prefix, xs, ys, i, j, so);
          piece := OneSide(store, g, Join(prefix, xs[i].name), xs[i], true);
          ok := EmitOneSide(g, xs[i], true);
          i := i + 1;
        } else if i == |xs| || xs[i].name != ys[j].name {
          TakeNew(store, g, h, prefix, xs, ys, i, j, so);
          piece := OneSide(store, h, Join(prefix, ys[j].name), ys[j], false);
          ok := EmitOneSide(h, ys[j], false);
          j := j + 1;
        } else {
          TakeBoth(store, g, h, prefix, xs, ys, i, j, so);
          piece := BothSides(store, g, h, Join(prefix, ys[j].name), xs[i], ys[j]);
          ok := EmitBothSides(g, h, xs[i], ys[j]);
          i, j := i + 1, j + 1;
        }
        TookThen(room, old(emitted), before, emitted, so, ok, piece);
        so := Then(so, piece);
        if !ok {
          TookNoMore(room, old(emitted), emitted, so, Lockstep(store, g, h, prefix, xs[i..], ys[j..]));
          return false;
        }
      }
      NothingLeft(store, g, h, prefix);
      ThenNothing(so);
      ok := true;
    }

    method EmitOneSide(h: nat, e: Entry, deleted: bool) returns (ok: bool)
      requires store.Valid() && (IsTree(e.mode) ==> store.Height(e.oid) < h) && |emitted| <= room
      modifies this
      ensures prefix == old(prefix) && |emitted| <= room
      ensures Reported(old(emitted), ok, OneSide(store, h, Join(old(prefix), e.name), e, deleted))
      decreases h, 0, 2
    {
      hide Join;
      var mark := Push(e.name);
      if IsTree(e.mode) {
        var gone := Tree(e.oid);
        ok := Diff(if deleted then gone else Absent, if deleted then Absent else gone);
      } else {
        ok := Emit(if deleted then Deleted(FileAt(prefix, e)) else Added(FileAt(prefix, e)));
      }
      prefix := prefix[..mark];
    }

    method EmitBothSides(g: nat, h: nat, x: Entry, y: Entry) returns (ok: bool)
      requires store.Valid() && (IsTree(x.mode) ==> store.Height(x.oid) < g) && (IsTree(y.mode) ==> store.Height(y.oid) < h)
      requires |emitted| <= room
      modifies this
      ensures prefix == old(prefix) && |emitted| <= room
      ensures Reported(old(emitted), ok, BothSides(store, g, h, Join(old(prefix), y.name), x, y))
      decreases g + h, 0, 2
    {
      if x.oid == y.oid && x.mode == y.mode {
        return true;
      }
      hide Join, Took, Then, DiffTrees;
      var mark := Push(y.name);
      var xTree, yTree := IsTree(x.mode), IsTree(y.mode);
      ghost var path := prefix;
      ghost var first, second := Done([]), Done([]);
      if xTree && yTree {
        ok := Diff(Tree(x.oid), Tree(y.oid));
      } else if xTree {
        first, second := DiffTrees(store, path, Tree(x.oid), Absent), Done([Added(FileAt(path, y))]);
        ok := Diff(Tree(x.oid), Absent);
        ghost var mid := emitted;
        if ok {
          ok := Emit(Added(FileAt(prefix, y)));
          TookThen(room, old(emitted), mid, emitted, first, ok, second);
        } else {
          TookNoMore(room, old(emitted), emitted, first, second);
        }
      } else if yTree {
        first, second := Done([Deleted(FileAt(path, x))]), DiffTrees(store, path, Absent, Tree(y.oid));
        ok := Emit(Deleted(FileAt(prefix, x)));
        ghost var mid := emitted;
        if ok {
          ok := Diff(Absent, Tree(y.oid));
          TookThen(room, old(emitted), mid, emitted, first, ok, second);
        } else {
          TookNoMore(room, old(emitted), emitted, first, second);
        }
      } else {
        ok := Emit(Changed(FileAt(prefix, x), FileAt(prefix, y)));
      }
      prefix := prefix[..mark];
    }
  }
}
