/** What the lockstep diff reports is right: it turns the old leaves into the new ones. It is exactly
    the difference when the entries of every tree are in byte order, and only then. */
module TreeDiffProof {
  import opened ByteOrder
  import opened Octets
  import opened TreeDiff

  // ---- conservation ----

  ghost function Removed(changes: seq<Change>): multiset<Item> {
    if changes == [] then multiset{}
    else (if changes[0].Added? then multiset{} else multiset{changes[0].before}) + Removed(changes[1..])
  }

  ghost function AddedOf(changes: seq<Change>): multiset<Item> {
    if changes == [] then multiset{}
    else (if changes[0].Deleted? then multiset{} else multiset{changes[0].after}) + AddedOf(changes[1..])
  }

  lemma {:induction false} ItemsOfBoth(c: seq<Change>, d: seq<Change>)
    ensures Removed(c + d) == Removed(c) + Removed(d)
    ensures AddedOf(c + d) == AddedOf(c) + AddedOf(d)
    decreases |c|
  {
    if c == [] {
      assert c + d == d;
    } else {
      assert (c + d)[1..] == c[1..] + d;
      ItemsOfBoth(c[1..], d);
    }
  }

  lemma ItemsOfOne(c: Change)
    ensures Removed([c]) == if c.Added? then multiset{} else multiset{c.before}
    ensures AddedOf([c]) == if c.Deleted? then multiset{} else multiset{c.after}
  {
    assert [c][1..] == [];
  }

  /** `before` is `common` and what is removed, `after` is `common` and what is added. */
  ghost predicate Turns(changes: seq<Change>, before: multiset<Item>, after: multiset<Item>, common: multiset<Item>) {
    before == common + Removed(changes) && after == common + AddedOf(changes)
  }

  lemma TurnsBoth(c: seq<Change>, b: multiset<Item>, a: multiset<Item>, k: multiset<Item>,
                  d: seq<Change>, b': multiset<Item>, a': multiset<Item>, k': multiset<Item>)
    requires Turns(c, b, a, k) && Turns(d, b', a', k')
    ensures Turns(c + d, b + b', a + a', k + k')
  {
    ItemsOfBoth(c, d);
  }

  lemma TurnsNothing(b: multiset<Item>)
    ensures Turns([], b, b, b)
  {
  }

  lemma TurnsOne(c: Change)
    ensures Turns([c], if c.Added? then multiset{} else multiset{c.before},
                  if c.Deleted? then multiset{} else multiset{c.after}, multiset{})
  {
    ItemsOfOne(c);
  }

  ghost function SideLeaves(s: Store, prefix: Path, side: Side): multiset<Item>
    requires s.Valid()
  {
    if side.Tree? then Leaves(s, prefix, side.oid) else multiset{}
  }

  /** Whatever the order of the entries: the leaves of the old tree without those reported as
      removed, and with those reported as added, are the leaves of the new tree. */
  lemma {:induction false} DiffConserves(s: Store, prefix: Path, a: Side, b: Side) returns (common: multiset<Item>)
    requires s.Valid() && DiffTrees(s, prefix, a, b).Done?
    ensures Turns(DiffTrees(s, prefix, a, b).changes, SideLeaves(s, prefix, a), SideLeaves(s, prefix, b), common)
    decreases Weight(s, a) + Weight(s, b), 1, 0
  {
    if a == b {
      common := SideLeaves(s, prefix, a);
      TurnsNothing(common);
    } else {
      hide Turns, LeavesOf, Lockstep;
      common := LockstepConserves(s, Weight(s, a), Weight(s, b), prefix, EntriesOf(s, a), EntriesOf(s, b));
      NoEntries(s, Weight(s, a), prefix);
      NoEntries(s, Weight(s, b), prefix);
    }
  }

  lemma NoEntries(s: Store, h: nat, prefix: Path)
    requires s.Valid()
    ensures LeavesOf(s, h, prefix, []) == multiset{}
  {
  }

  lemma {:induction false} LockstepConserves(s: Store, g: nat, h: nat, prefix: Path, xs: seq<Entry>, ys: seq<Entry>)
    returns (common: multiset<Item>)
    requires s.Valid() && s.LowerThan(xs, g) && s.LowerThan(ys, h) && Lockstep(s, g, h, prefix, xs, ys).Done?
    ensures Turns(Lockstep(s, g, h, prefix, xs, ys).changes, LeavesOf(s, g, prefix, xs), LeavesOf(s, h, prefix, ys), common)
    decreases g + h, 0, |xs| + |ys|
  {
    hide Turns, BytesLess, EntryLeaves, OneSide, BothSides;
    if xs == [] && ys == [] {
      common := multiset{};
      TurnsNothing(common);
    } else if ys == [] || (xs != [] && BytesLess(xs[0].name, ys[0].name)) {
      var path := Join(prefix, xs[0].name);
      var one := OneSideConserves(s, g, path, xs[0], true);
      var rest := LockstepConserves(s, g, h, prefix, xs[1..], ys);
      TurnsBoth(OneSide(s, g, path, xs[0], true).changes, EntryLeaves(s, g, path, xs[0]), multiset{}, one,
                Lockstep(s, g, h, prefix, xs[1..], ys).changes, LeavesOf(s, g, prefix, xs[1..]), LeavesOf(s, h, prefix, ys), rest);
      common := one + rest;
      assert multiset{} + LeavesOf(s, h, prefix, ys) == LeavesOf(s, h, prefix, ys);
    } else if xs == [] || xs[0].name != ys[0].name {
      var path := Join(prefix, ys[0].name);
      var one := OneSideConserves(s, h, path, ys[0], false);
      var rest := LockstepConserves(s, g, h, prefix, xs, ys[1..]);
      TurnsBoth(OneSide(s, h, path, ys[0], false).changes, multiset{}, EntryLeaves(s, h, path, ys[0]), one,
                Lockstep(s, g, h, prefix, xs, ys[1..]).changes, LeavesOf(s, g, prefix, xs), LeavesOf(s, h, prefix, ys[1..]), rest);
      common := one + rest;
      assert multiset{} + LeavesOf(s, g, prefix, xs) == LeavesOf(s, g, prefix, xs);
    } else {
      var path := Join(prefix, ys[0].name);
      var one := BothSidesConserve(s, g, h, path, xs[0], ys[0]);
      var rest := LockstepConserves(s, g, h, prefix, xs[1..], ys[1..]);
      TurnsBoth(BothSides(s, g, h, path, xs[0], ys[0]).changes, EntryLeaves(s, g, path, xs[0]), EntryLeaves(s, h, path, ys[0]), one,
                Lockstep(s, g, h, prefix, xs[1..], ys[1..]).changes,
                LeavesOf(s, g, prefix, xs[1..]), LeavesOf(s, h, prefix, ys[1..]), rest);
      common := one + rest;
    }
  }

  lemma {:induction false} OneSideConserves(s: Store, h: nat, path: Path, e: Entry, deleted: bool) returns (common: multiset<Item>)
    requires s.Valid() && (IsTree(e.mode) ==> s.Height(e.oid) < h) && OneSide(s, h, path, e, deleted).Done?
    ensures Turns(OneSide(s, h, path, e, deleted).changes, if deleted then EntryLeaves(s, h, path, e) else multiset{},
                  if deleted then multiset{} else EntryLeaves(s, h, path, e), common)
    decreases h, 0, 0
  {
    hide Turns, IsTree;
    if IsTree(e.mode) {
      var gone := Tree(e.oid);
      common := DiffConserves(s, path, if deleted then gone else Absent, if deleted then Absent else gone);
    } else {
      TurnsOne(if deleted then Deleted(FileAt(path, e)) else Added(FileAt(path, e)));
      common := multiset{};
    }
  }

  lemma {:induction false} BothSidesConserve(s: Store, g: nat, h: nat, path: Path, x: Entry, y: Entry) returns (common: multiset<Item>)
    requires s.Valid() && (IsTree(x.mode) ==> s.Height(x.oid) < g) && (IsTree(y.mode) ==> s.Height(y.oid) < h)
    requires BothSides(s, g, h, path, x, y).Done?
    ensures Turns(BothSides(s, g, h, path, x, y).changes, EntryLeaves(s, g, path, x), EntryLeaves(s, h, path, y), common)
    decreases g + h, 0, 0
  {
    hide Turns, IsTree;
    if x.oid == y.oid && x.mode == y.mode {
      common := EntryLeaves(s, g, path, x);
      TurnsNothing(common);
    } else if IsTree(x.mode) && IsTree(y.mode) {
      common := DiffConserves(s, path, Tree(x.oid), Tree(y.oid));
    } else if IsTree(x.mode) {
      var k := DiffConserves(s, path, Tree(x.oid), Absent);
      TurnsOne(Added(FileAt(path, y)));
      TurnsBoth(DiffTrees(s, path, Tree(x.oid), Absent).changes, Leaves(s, path, x.oid), multiset{}, k,
                [Added(FileAt(path, y))], multiset{}, multiset{FileAt(path, y)}, multiset{});
      common := k + multiset{};
      assert Leaves(s, path, x.oid) + multiset{} == Leaves(s, path, x.oid);
      assert multiset{} + multiset{FileAt(path, y)} == multiset{FileAt(path, y)};
    } else if IsTree(y.mode) {
      var k := DiffConserves(s, path, Absent, Tree(y.oid));
      TurnsOne(Deleted(FileAt(path, x)));
      TurnsBoth([Deleted(FileAt(path, x))], multiset{FileAt(path, x)}, multiset{}, multiset{},
                DiffTrees(s, path, Absent, Tree(y.oid)).changes, multiset{}, Leaves(s, path, y.oid), k);
      common := multiset{} + k;
      assert multiset{} + Leaves(s, path, y.oid) == Leaves(s, path, y.oid);
      assert multiset{FileAt(path, x)} + multiset{} == multiset{FileAt(path, x)};
    } else {
      TurnsOne(Changed(FileAt(path, x), FileAt(path, y)));
      common := multiset{};
    }
  }

  // ---- paths ----

  predicate Plain(name: Bytes) {
    name != [] && SLASH !in name
  }

  /** `p` is `base` or lies below it. */
  predicate Under(p: Path, base: Path) {
    |base| <= |p| && p[..|base|] == base && (|p| > |base| ==> p[|base|] == SLASH)
  }

  function Skipped(prefix: Path): nat {
    if prefix == [] then 0 else |prefix| + 1
  }

  lemma NameInPath(p: Path, prefix: Path, n: Bytes)
    requires Plain(n) && Under(p, Join(prefix, n))
    ensures var b := Skipped(prefix);
            && b + |n| <= |p| && p[b..b + |n|] == n
            && (b + |n| < |p| ==> p[b + |n|] == SLASH)
  {
    var b := Skipped(prefix);
    assert p[b..b + |n|] == p[..b + |n|][b..] == Join(prefix, n)[b..] == n;
  }

  lemma NoSlashInName(p: Path, b: nat, m: Bytes, k: nat)
    requires Plain(m) && b + |m| <= |p| && p[b..b + |m|] == m && k < |m|
    ensures p[b + k] != SLASH
  {
    assert m[k] == p[b + k];
  }

  lemma NotLonger(p: Path, b: nat, n: Bytes, m: Bytes)
    requires Plain(m) && b + |m| <= |p| && p[b..b + |m|] == m
    requires b + |n| < |p| ==> p[b + |n|] == SLASH
    ensures |m| <= |n|
  {
    hide Plain;
    if |n| < |m| {
      NoSlashInName(p, b, m, |n|);
    }
  }

  /** No path lies under two entries of one tree. */
  lemma UnderOne(p: Path, prefix: Path, n: Bytes, m: Bytes)
    requires Plain(n) && Plain(m) && Under(p, Join(prefix, n)) && Under(p, Join(prefix, m))
    ensures n == m
  {
    hide Plain, Under, Join;
    NameInPath(p, prefix, n);
    NameInPath(p, prefix, m);
    NotLonger(p, Skipped(prefix), n, m);
    NotLonger(p, Skipped(prefix), m, n);
  }

  lemma UnderIsTransitive(p: Path, q: Path, base: Path)
    requires Under(p, q) && Under(q, base)
    ensures Under(p, base)
  {
    assert p[..|base|] == p[..|q|][..|base|];
    if |p| > |base| && |q| > |base| {
      assert p[|base|] == p[..|q|][|base|];
    }
  }

  lemma JoinIsBelow(prefix: Path, name: Bytes)
    requires prefix != []
    ensures Under(Join(prefix, name), prefix) && |Join(prefix, name)| > |prefix|
  {
  }

  // ---- where the leaves lie ----

  ghost predicate AllUnder(m: multiset<Item>, base: Path) {
    forall x :: x in m ==> Under(x.path, base)
  }

  lemma {:induction false} LeavesLieUnder(s: Store, path: Path, oid: Oid)
    requires s.Valid() && path != []
    ensures AllUnder(Leaves(s, path, oid), path)
    decreases s.Height(oid), 1, 0
  {
    if oid in s.trees {
      LeavesOfLieBelow(s, s.height[oid] + 1, path, s.trees[oid]);
    }
  }

  lemma {:induction false} LeavesOfLieBelow(s: Store, h: nat, prefix: Path, entries: seq<Entry>)
    requires s.Valid() && s.LowerThan(entries, h) && prefix != []
    ensures forall x :: x in LeavesOf(s, h, prefix, entries) ==> Under(x.path, prefix) && |x.path| > |prefix|
    decreases h, 0, |entries|
  {
    if entries != [] {
      var path := Join(prefix, entries[0].name);
      EntryLiesUnder(s, h, path, entries[0]);
      LeavesOfLieBelow(s, h, prefix, entries[1..]);
      JoinIsBelow(prefix, entries[0].name);
      forall x | x in EntryLeaves(s, h, path, entries[0])
        ensures Under(x.path, prefix) && |x.path| > |prefix|
      {
        UnderIsTransitive(x.path, path, prefix);
      }
      hide EntryLeaves, Under, Join;
    }
  }

  lemma {:induction false} EntryLiesUnder(s: Store, h: nat, path: Path, e: Entry)
    requires s.Valid() && (IsTree(e.mode) ==> s.Height(e.oid) < h) && path != []
    ensures AllUnder(EntryLeaves(s, h, path, e), path)
    decreases h, 0, 0
  {
    if IsTree(e.mode) {
      LeavesLieUnder(s, path, e.oid);
    }
  }

  /** There is a leaf below the subtree, or it cannot be read. */
  ghost predicate HasLeaf(s: Store, oid: Oid)
    requires s.Valid()
    decreases s.Height(oid)
  {
    oid in s.trees ==>
      exists k :: 0 <= k < |s.trees[oid]| && (IsTree(s.trees[oid][k].mode) ==> HasLeaf(s, s.trees[oid][k].oid))
  }

  /** The entry is a file or has one below it. */
  ghost predicate Shows(s: Store, e: Entry)
    requires s.Valid()
  {
    IsTree(e.mode) ==> HasLeaf(s, e.oid)
  }

  lemma {:induction false} LeafShows(s: Store, h: nat, path: Path, e: Entry, x: Item)
    requires s.Valid() && (IsTree(e.mode) ==> s.Height(e.oid) < h) && x in EntryLeaves(s, h, path, e)
    ensures Shows(s, e)
    decreases h, 0
  {
    if IsTree(e.mode) && e.oid in s.trees {
      var k := LeafOfOne(s, s.height[e.oid] + 1, path, s.trees[e.oid], x);
    }
  }

  lemma {:induction false} LeafOfOne(s: Store, h: nat, prefix: Path, entries: seq<Entry>, x: Item) returns (k: nat)
    requires s.Valid() && s.LowerThan(entries, h) && x in LeavesOf(s, h, prefix, entries)
    ensures k < |entries| && Shows(s, entries[k])
    decreases h, |entries| + 1
  {
    if x in EntryLeaves(s, h, Join(prefix, entries[0].name), entries[0]) {
      k := 0;
      LeafShows(s, h, Join(prefix, entries[0].name), entries[0], x);
    } else {
      k := LeafOfOne(s, h, prefix, entries[1..], x);
      k := k + 1;
    }
  }

  /** No entry of that name has a leaf. */
  ghost predicate Elsewhere(s: Store, entries: seq<Entry>, name: Bytes)
    requires s.Valid()
  {
    forall k :: 0 <= k < |entries| ==> Plain(entries[k].name) && (Shows(s, entries[k]) ==> entries[k].name != name)
  }

  /** No leaf of other entries lies under `name`. */
  lemma {:induction false} OthersLieElsewhere(s: Store, h: nat, prefix: Path, entries: seq<Entry>, name: Bytes, x: Item)
    requires s.Valid() && s.LowerThan(entries, h) && Plain(name) && Elsewhere(s, entries, name)
    requires x in LeavesOf(s, h, prefix, entries)
    ensures !Under(x.path, Join(prefix, name))
    decreases |entries|
  {
    hide EntryLeaves, Under, Join, Shows;
    if x in EntryLeaves(s, h, Join(prefix, entries[0].name), entries[0]) {
      LeafShows(s, h, Join(prefix, entries[0].name), entries[0], x);
      JoinIsNotEmpty(prefix, entries[0].name);
      EntryLiesUnder(s, h, Join(prefix, entries[0].name), entries[0]);
      if Under(x.path, Join(prefix, name)) {
        UnderOne(x.path, prefix, name, entries[0].name);
      }
    } else {
      OthersLieElsewhere(s, h, prefix, entries[1..], name, x);
    }
  }

  lemma JoinIsNotEmpty(prefix: Path, name: Bytes)
    requires Plain(name)
    ensures Join(prefix, name) != []
  {
  }

  // ---- exactness ----

  /** A mode without a leading zero that could be left out: git writes modes this way. */
  predicate Canonical(mode: seq<Digit>) {
    mode == [0] || Leading(mode)
  }

  predicate Leading(mode: seq<Digit>) {
    mode != [] && mode[0] != 0
  }

  /** The names of a tree are plain, distinct and in byte order, the modes of its files canonical. */
  ghost predicate Orderly(s: Store, entries: seq<Entry>)
    requires s.Valid()
  {
    AllPlain(entries) && DistinctNames(entries) && FilesCanonical(entries) && InByteOrder(s, entries)
  }

  predicate AllPlain(entries: seq<Entry>) {
    forall k :: 0 <= k < |entries| ==> Plain(entries[k].name)
  }

  predicate DistinctNames(entries: seq<Entry>) {
    forall k, l :: 0 <= k < l < |entries| ==> entries[k].name != entries[l].name
  }

  predicate FilesCanonical(entries: seq<Entry>) {
    forall k :: 0 <= k < |entries| && !IsTree(entries[k].mode) ==> Canonical(entries[k].mode)
  }

  /** Every entry that has a leaf comes behind those with smaller names only. */
  ghost predicate InByteOrder(s: Store, entries: seq<Entry>)
    requires s.Valid()
  {
    forall k, l :: 0 <= k < l < |entries| && Shows(s, entries[l]) ==> BytesLess(entries[k].name, entries[l].name)
  }

  ghost predicate AllOrderly(s: Store)
    requires s.Valid()
  {
    forall t :: t in s.trees ==> Orderly(s, s.trees[t])
  }

  /** Nothing is reported both as removed and as added. */
  ghost predicate Exact(changes: seq<Change>) {
    forall x :: x in Removed(changes) ==> x !in AddedOf(changes)
  }

  lemma CanonicalIsInjective(m: seq<Digit>, n: seq<Digit>)
    requires Canonical(m) && Canonical(n) && Value(m) == Value(n)
    ensures m == n
  {
    if Leading(m) {
      ValueIsPositive(m);
    }
    if Leading(n) {
      ValueIsPositive(n);
    }
    hide Leading;
    if Leading(m) && Leading(n) {
      LeadingIsInjective(m, n);
    }
  }

  lemma {:induction false} LeadingIsInjective(m: seq<Digit>, n: seq<Digit>)
    requires Leading(m) && Leading(n) && Value(m) == Value(n)
    ensures m == n
    decreases |m| + |n|
  {
    var m', n' := m[..|m| - 1], n[..|n| - 1];
    assert m == m' + [m[|m| - 1]] && n == n' + [n[|n| - 1]];
    LastDigit(Value(m'), m[|m| - 1] as int, Value(n'), n[|n| - 1] as int);
    if m' != [] && n' != [] {
      LeadingIsInjective(m', n');
    } else if m' != [] {
      ValueIsPositive(m');
    } else if n' != [] {
      ValueIsPositive(n');
    }
  }

  lemma LastDigit(u: nat, d: nat, v: nat, e: nat)
    requires d < 8 && e < 8 && 8 * u + d == 8 * v + e
    ensures u == v && d == e
  {
  }

  lemma {:induction false} ValueIsPositive(m: seq<Digit>)
    requires Leading(m)
    ensures Value(m) > 0
    decreases |m|
  {
    if |m| > 1 {
      ValueIsPositive(m[..|m| - 1]);
    }
  }

  /** Reports under one name and reports elsewhere do not mix. */
  lemma ExactTogether(c: seq<Change>, d: seq<Change>, base: Path)
    requires Exact(c) && Exact(d)
    requires forall x :: x in Removed(c) || x in AddedOf(c) ==> Under(x.path, base)
    requires forall x :: x in Removed(d) || x in AddedOf(d) ==> !Under(x.path, base)
    ensures Exact(c + d)
  {
    ItemsOfBoth(c, d);
    hide Removed, AddedOf, Under;
  }

  /** What is reported are leaves of the two sides. */
  lemma TurnsWithin(c: seq<Change>, before: multiset<Item>, after: multiset<Item>, common: multiset<Item>)
    requires Turns(c, before, after, common)
    ensures forall x :: x in Removed(c) ==> x in before
    ensures forall x :: x in AddedOf(c) ==> x in after
  {
  }

  /** The first piece of a lockstep walk and the rest lie apart. */
  lemma PiecesLieApart(s: Store, g: nat, h: nat, prefix: Path, name: Bytes, c: seq<Change>, d: seq<Change>,
                       before: multiset<Item>, after: multiset<Item>, xs: seq<Entry>, ys: seq<Entry>,
                       k: multiset<Item>, k': multiset<Item>)
    requires s.Valid() && s.LowerThan(xs, g) && s.LowerThan(ys, h) && Plain(name)
    requires Turns(c, before, after, k) && Turns(d, LeavesOf(s, g, prefix, xs), LeavesOf(s, h, prefix, ys), k')
    requires AllUnder(before, Join(prefix, name)) && AllUnder(after, Join(prefix, name))
    requires Elsewhere(s, xs, name) && Elsewhere(s, ys, name)
    requires Exact(c) && Exact(d)
    ensures Exact(c + d)
  {
    TurnsWithin(c, before, after, k);
    TurnsWithin(d, LeavesOf(s, g, prefix, xs), LeavesOf(s, h, prefix, ys), k');
    hide Turns, Removed, AddedOf, LeavesOf, Exact, Join, Under;
    forall x | x in Removed(d) || x in AddedOf(d)
      ensures !Under(x.path, Join(prefix, name))
    {
      if x in Removed(d) {
        OthersLieElsewhere(s, g, prefix, xs, name, x);
      } else {
        OthersLieElsewhere(s, h, prefix, ys, name, x);
      }
    }
    ExactTogether(c, d, Join(prefix, name));
  }

  /** A name that comes before the first one is none of those with leaves. */
  lemma NamesBefore(s: Store, entries: seq<Entry>, name: Bytes)
    requires s.Valid() && Orderly(s, entries) && (entries != [] ==> BytesLess(name, entries[0].name))
    ensures Elsewhere(s, entries, name)
  {
    hide FilesCanonical, DistinctNames, Shows, Plain, BytesLess;
    forall k | 0 <= k < |entries| && Shows(s, entries[k])
      ensures entries[k].name != name
    {
      if k > 0 {
        assert BytesLess(entries[0].name, entries[k].name);
        BytesLessIsTransitive(name, entries[0].name, entries[k].name);
      }
      BytesLessIsStrict(name);
    }
  }

  lemma OrderlyRest(s: Store, entries: seq<Entry>)
    requires s.Valid() && Orderly(s, entries) && entries != []
    ensures Orderly(s, entries[1..]) && Elsewhere(s, entries[1..], entries[0].name)
    ensures Plain(entries[0].name) && (!IsTree(entries[0].mode) ==> Canonical(entries[0].mode))
  {
    hide Canonical, Plain, BytesLess, IsTree, Shows;
    var rest := entries[1..];
    assert AllPlain(rest) && FilesCanonical(rest) && DistinctNames(rest) && InByteOrder(s, rest);
  }

  /** Where one side has no leaves, nothing is reported twice. */
  lemma OneSideIsExact(c: seq<Change>, before: multiset<Item>, after: multiset<Item>, common: multiset<Item>)
    requires Turns(c, before, after, common) && (before == multiset{} || after == multiset{})
    ensures Exact(c)
  {
    TurnsWithin(c, before, after, common);
  }

  lemma OneSidePiece(s: Store, g: nat, h: nat, prefix: Path, e: Entry, deleted: bool, xs: seq<Entry>, ys: seq<Entry>, w: nat)
    requires s.Valid() && s.LowerThan(xs, g) && s.LowerThan(ys, h) && (IsTree(e.mode) ==> s.Height(e.oid) < w)
    requires Plain(e.name) && Elsewhere(s, xs, e.name) && Elsewhere(s, ys, e.name)
    requires OneSide(s, w, Join(prefix, e.name), e, deleted).Done?
    requires Lockstep(s, g, h, prefix, xs, ys).Done? && Exact(Lockstep(s, g, h, prefix, xs, ys).changes)
    ensures Exact(OneSide(s, w, Join(prefix, e.name), e, deleted).changes + Lockstep(s, g, h, prefix, xs, ys).changes)
  {
    var path := Join(prefix, e.name);
    JoinIsNotEmpty(prefix, e.name);
    hide OneSide, Lockstep, EntryLeaves, LeavesOf, Turns, Exact, Elsewhere, Join, Plain, IsTree;
    var k := OneSideConserves(s, w, path, e, deleted);
    var k' := LockstepConserves(s, g, h, prefix, xs, ys);
    EntryLiesUnder(s, w, path, e);
    var before, after := if deleted then EntryLeaves(s, w, path, e) else multiset{}, if deleted then multiset{} else EntryLeaves(s, w, path, e);
    OneSideIsExact(OneSide(s, w, path, e, deleted).changes, before, after, k);
    PiecesLieApart(s, g, h, prefix, e.name, OneSide(s, w, path, e, deleted).changes, Lockstep(s, g, h, prefix, xs, ys).changes,
                   before, after, xs, ys, k, k');
  }

  lemma BothSidesPiece(s: Store, g: nat, h: nat, prefix: Path, x: Entry, y: Entry, xs: seq<Entry>, ys: seq<Entry>)
    requires s.Valid() && s.LowerThan(xs, g) && s.LowerThan(ys, h) && x.name == y.name
    requires (IsTree(x.mode) ==> s.Height(x.oid) < g) && (IsTree(y.mode) ==> s.Height(y.oid) < h)
    requires Plain(y.name) && Elsewhere(s, xs, y.name) && Elsewhere(s, ys, y.name)
    requires BothSides(s, g, h, Join(prefix, y.name), x, y).Done? && Exact(BothSides(s, g, h, Join(prefix, y.name), x, y).changes)
    requires Lockstep(s, g, h, prefix, xs, ys).Done? && Exact(Lockstep(s, g, h, prefix, xs, ys).changes)
    ensures Exact(BothSides(s, g, h, Join(prefix, y.name), x, y).changes + Lockstep(s, g, h, prefix, xs, ys).changes)
  {
    var path := Join(prefix, y.name);
    JoinIsNotEmpty(prefix, y.name);
    hide BothSides, Lockstep, EntryLeaves, LeavesOf, Turns, Exact, Elsewhere, Join, Plain, IsTree;
    var k := BothSidesConserve(s, g, h, path, x, y);
    var k' := LockstepConserves(s, g, h, prefix, xs, ys);
    EntryLiesUnder(s, g, path, x);
    EntryLiesUnder(s, h, path, y);
    PiecesLieApart(s, g, h, prefix, y.name, BothSides(s, g, h, path, x, y).changes, Lockstep(s, g, h, prefix, xs, ys).changes,
                   EntryLeaves(s, g, path, x), EntryLeaves(s, h, path, y), xs, ys, k, k');
  }

  /** The leaves of a directory lie below the path of the file that takes or leaves its place. */
  lemma TreeAndFile(s: Store, path: Path, oid: Oid, file: Item, deleted: bool)
    requires s.Valid() && path != [] && file.path == path
    requires if deleted then DiffTrees(s, path, Tree(oid), Absent).Done? else DiffTrees(s, path, Absent, Tree(oid)).Done?
    ensures deleted ==> Exact(DiffTrees(s, path, Tree(oid), Absent).changes + [Added(file)])
    ensures !deleted ==> Exact([Deleted(file)] + DiffTrees(s, path, Absent, Tree(oid)).changes)
  {
    assert oid in s.trees;
    LeavesOfLieBelow(s, s.height[oid] + 1, path, s.trees[oid]);
    assert forall x :: x in Leaves(s, path, oid) ==> x != file;
    hide Leaves, DiffTrees, LeavesOf;
    if deleted {
      var c := DiffTrees(s, path, Tree(oid), Absent).changes;
      var k := DiffConserves(s, path, Tree(oid), Absent);
      TurnsWithin(c, Leaves(s, path, oid), multiset{}, k);
      ItemsOfBoth(c, [Added(file)]);
      ItemsOfOne(Added(file));
    } else {
      var c := DiffTrees(s, path, Absent, Tree(oid)).changes;
      var k := DiffConserves(s, path, Absent, Tree(oid));
      TurnsWithin(c, multiset{}, Leaves(s, path, oid), k);
      ItemsOfBoth([Deleted(file)], c);
      ItemsOfOne(Deleted(file));
    }
  }

  /** Two files that differ in oid or mode are different leaves. */
  lemma FilesDiffer(path: Path, x: Entry, y: Entry)
    requires Canonical(x.mode) && Canonical(y.mode) && (x.oid != y.oid || x.mode != y.mode)
    ensures Exact([Changed(FileAt(path, x), FileAt(path, y))])
  {
    if Value(x.mode) == Value(y.mode) {
      CanonicalIsInjective(x.mode, y.mode);
    }
    ItemsOfOne(Changed(FileAt(path, x), FileAt(path, y)));
  }

  lemma {:induction false} BothSidesAreExact(s: Store, g: nat, h: nat, path: Path, x: Entry, y: Entry)
    requires s.Valid() && AllOrderly(s) && path != []
    requires (!IsTree(x.mode) ==> Canonical(x.mode)) && (!IsTree(y.mode) ==> Canonical(y.mode))
    requires (IsTree(x.mode) ==> s.Height(x.oid) < g) && (IsTree(y.mode) ==> s.Height(y.oid) < h)
    requires BothSides(s, g, h, path, x, y).Done?
    ensures Exact(BothSides(s, g, h, path, x, y).changes)
    decreases g + h, 0, 0
  {
    hide Exact, IsTree, Canonical, AllOrderly;
    if x.oid == y.oid && x.mode == y.mode {
      NothingIsExact();
    } else if IsTree(x.mode) && IsTree(y.mode) {
      DiffIsExact(s, path, Tree(x.oid), Tree(y.oid));
    } else if IsTree(x.mode) {
      TreeAndFile(s, path, x.oid, FileAt(path, y), true);
    } else if IsTree(y.mode) {
      TreeAndFile(s, path, y.oid, FileAt(path, x), false);
    } else {
      FilesDiffer(path, x, y);
    }
  }

  /** With all trees in byte order, no leaf is reported both as removed and as added. */
  lemma {:induction false} DiffIsExact(s: Store, prefix: Path, a: Side, b: Side)
    requires s.Valid() && AllOrderly(s) && DiffTrees(s, prefix, a, b).Done?
    ensures Exact(DiffTrees(s, prefix, a, b).changes)
    decreases Weight(s, a) + Weight(s, b), 1, 0
  {
    if a != b {
      LockstepIsExact(s, Weight(s, a), Weight(s, b), prefix, EntriesOf(s, a), EntriesOf(s, b));
    }
  }

  lemma {:induction false} LockstepIsExact(s: Store, g: nat, h: nat, prefix: Path, xs: seq<Entry>, ys: seq<Entry>)
    requires s.Valid() && AllOrderly(s) && Orderly(s, xs) && Orderly(s, ys)
    requires s.LowerThan(xs, g) && s.LowerThan(ys, h) && Lockstep(s, g, h, prefix, xs, ys).Done?
    ensures Exact(Lockstep(s, g, h, prefix, xs, ys).changes)
    decreases g + h, 0, |xs| + |ys|
  {
    hide AllOrderly, Orderly, Turns, Exact, BytesLess, EntryLeaves, OneSide, BothSides, Removed, AddedOf, LeavesOf, Join, Elsewhere,
      AllUnder, Plain, Canonical, IsTree;
    if xs == [] && ys == [] {
      NothingIsExact();
    } else if ys == [] || (xs != [] && BytesLess(xs[0].name, ys[0].name)) {
      OrderlyRest(s, xs);
      NamesBefore(s, ys, xs[0].name);
      LockstepIsExact(s, g, h, prefix, xs[1..], ys);
      OneSidePiece(s, g, h, prefix, xs[0], true, xs[1..], ys, g);
    } else if xs == [] || xs[0].name != ys[0].name {
      OrderlyRest(s, ys);
      if xs != [] {
        BytesLessIsTotal(xs[0].name, ys[0].name);
      }
      NamesBefore(s, xs, ys[0].name);
      LockstepIsExact(s, g, h, prefix, xs, ys[1..]);
      OneSidePiece(s, g, h, prefix, ys[0], false, xs, ys[1..], h);
    } else {
      OrderlyRest(s, xs);
      OrderlyRest(s, ys);
      LockstepIsExact(s, g, h, prefix, xs[1..], ys[1..]);
      JoinIsNotEmpty(prefix, ys[0].name);
      BothSidesAreExact(s, g, h, Join(prefix, ys[0].name), xs[0], ys[0]);
      BothSidesPiece(s, g, h, prefix, xs[0], ys[0], xs[1..], ys[1..]);
    }
  }

  lemma NothingIsExact()
    ensures Exact([])
  {
  }

  /** With all trees in byte order, what is reported is exactly the difference of the leaves. */
  lemma DiffIsTheDifference(s: Store, prefix: Path, a: Side, b: Side)
    requires s.Valid() && AllOrderly(s) && DiffTrees(s, prefix, a, b).Done?
    ensures var changes := DiffTrees(s, prefix, a, b).changes;
            && Removed(changes) == SideLeaves(s, prefix, a) - SideLeaves(s, prefix, b)
            && AddedOf(changes) == SideLeaves(s, prefix, b) - SideLeaves(s, prefix, a)
  {
    var common := DiffConserves(s, prefix, a, b);
    DiffIsExact(s, prefix, a, b);
    var changes := DiffTrees(s, prefix, a, b).changes;
    hide DiffTrees, Removed, AddedOf, SideLeaves, AllOrderly;
    Difference(Removed(changes), AddedOf(changes), common);
  }

  lemma Difference(r: multiset<Item>, a: multiset<Item>, common: multiset<Item>)
    requires forall x :: x in r ==> x !in a
    ensures common + r - (common + a) == r && common + a - (common + r) == a
  {
    forall x
      ensures (common + r - (common + a))[x] == r[x] && (common + a - (common + r))[x] == a[x]
    {
      if x !in r {
        assert r[x] == 0;
      }
    }
  }

  // ---- no other order will do ----

  /** Every subtree can be read. */
  predicate Complete(s: Store) {
    forall t :: t in s.trees ==> CanRead(s, s.trees[t])
  }

  predicate CanRead(s: Store, entries: seq<Entry>) {
    forall k :: 0 <= k < |entries| && IsTree(entries[k].mode) ==> entries[k].oid in s.trees
  }

  predicate SideRead(s: Store, side: Side) {
    side.Tree? ==> side.oid in s.trees
  }

  lemma {:induction false} ReadDiffIsDone(s: Store, prefix: Path, a: Side, b: Side)
    requires s.Valid() && Complete(s) && SideRead(s, a) && SideRead(s, b)
    ensures DiffTrees(s, prefix, a, b).Done?
    decreases Weight(s, a) + Weight(s, b), 1, 0
  {
    if a != b {
      ReadLockstepIsDone(s, Weight(s, a), Weight(s, b), prefix, EntriesOf(s, a), EntriesOf(s, b));
    }
  }

  lemma {:induction false} ReadLockstepIsDone(s: Store, g: nat, h: nat, prefix: Path, xs: seq<Entry>, ys: seq<Entry>)
    requires s.Valid() && Complete(s) && s.LowerThan(xs, g) && s.LowerThan(ys, h) && CanRead(s, xs) && CanRead(s, ys)
    ensures Lockstep(s, g, h, prefix, xs, ys).Done?
    decreases g + h, 0, |xs| + |ys|
  {
    hide OneSide, BothSides, Join, BytesLess, IsTree, Complete;
    if xs == [] && ys == [] {
    } else if ys == [] || (xs != [] && BytesLess(xs[0].name, ys[0].name)) {
      OneSideIsDone(s, g, Join(prefix, xs[0].name), xs[0], true);
      ReadLockstepIsDone(s, g, h, prefix, xs[1..], ys);
    } else if xs == [] || xs[0].name != ys[0].name {
      OneSideIsDone(s, h, Join(prefix, ys[0].name), ys[0], false);
      ReadLockstepIsDone(s, g, h, prefix, xs, ys[1..]);
    } else {
      BothSidesAreDone(s, g, h, Join(prefix, ys[0].name), xs[0], ys[0]);
      ReadLockstepIsDone(s, g, h, prefix, xs[1..], ys[1..]);
    }
  }

  lemma {:induction false} OneSideIsDone(s: Store, h: nat, path: Path, e: Entry, deleted: bool)
    requires s.Valid() && Complete(s) && (IsTree(e.mode) ==> s.Height(e.oid) < h && e.oid in s.trees)
    ensures OneSide(s, h, path, e, deleted).Done?
    decreases h, 0, 0
  {
    if IsTree(e.mode) {
      var t := Tree(e.oid);
      ReadDiffIsDone(s, path, if deleted then t else Absent, if deleted then Absent else t);
    }
  }

  lemma {:induction false} BothSidesAreDone(s: Store, g: nat, h: nat, path: Path, x: Entry, y: Entry)
    requires s.Valid() && Complete(s) && (IsTree(x.mode) ==> s.Height(x.oid) < g && x.oid in s.trees)
    requires IsTree(y.mode) ==> s.Height(y.oid) < h && y.oid in s.trees
    ensures BothSides(s, g, h, path, x, y).Done?
    decreases g + h, 0, 0
  {
    hide DiffTrees, Complete;
    if IsTree(x.mode) && IsTree(y.mode) {
      ReadDiffIsDone(s, path, Tree(x.oid), Tree(y.oid));
    } else if IsTree(x.mode) {
      ReadDiffIsDone(s, path, Tree(x.oid), Absent);
    } else if IsTree(y.mode) {
      ReadDiffIsDone(s, path, Absent, Tree(y.oid));
    }
  }

  /** An entry that shows has a leaf at any path. */
  lemma {:induction false} ShownLeaf(s: Store, h: nat, path: Path, e: Entry) returns (x: Item)
    requires s.Valid() && (IsTree(e.mode) ==> s.Height(e.oid) < h) && Shows(s, e)
    ensures x in EntryLeaves(s, h, path, e)
    decreases h
  {
    if !IsTree(e.mode) {
      x := FileAt(path, e);
    } else if e.oid !in s.trees {
      x := Unread(path, e.oid);
    } else {
      var es := s.trees[e.oid];
      var k := ShownEntry(s, e.oid);
      hide HasLeaf, LeavesOf;
      x := ShownLeaf(s, s.height[e.oid] + 1, Join(path, es[k].name), es[k]);
      LeafIsListed(s, s.height[e.oid] + 1, path, es, k, x);
    }
  }

  lemma ShownEntry(s: Store, oid: Oid) returns (k: nat)
    requires s.Valid() && oid in s.trees && HasLeaf(s, oid)
    ensures k < |s.trees[oid]| && Shows(s, s.trees[oid][k])
  {
    k :| 0 <= k < |s.trees[oid]| && Shows(s, s.trees[oid][k]);
  }

  lemma {:induction false} LeafIsListed(s: Store, h: nat, prefix: Path, entries: seq<Entry>, k: nat, x: Item)
    requires s.Valid() && s.LowerThan(entries, h) && k < |entries|
    requires x in EntryLeaves(s, h, Join(prefix, entries[k].name), entries[k])
    ensures x in LeavesOf(s, h, prefix, entries)
    decreases |entries|
  {
    hide EntryLeaves, Join, IsTree;
    if k > 0 {
      LeafIsListed(s, h, prefix, entries[1..], k - 1, x);
    }
  }

  /** Where nothing is left on the new side, everything is reported as removed. */
  lemma AllIsRemoved(s: Store, g: nat, h: nat, prefix: Path, xs: seq<Entry>)
    requires s.Valid() && s.LowerThan(xs, g) && Lockstep(s, g, h, prefix, xs, []).Done?
    ensures Removed(Lockstep(s, g, h, prefix, xs, []).changes) == LeavesOf(s, g, prefix, xs)
  {
    NoEntries(s, h, prefix);
    hide Lockstep, LeavesOf, Removed, AddedOf;
    var common := LockstepConserves(s, g, h, prefix, xs, []);
    assert common == multiset{};
  }

  lemma AllIsAdded(s: Store, h: nat, path: Path, e: Entry)
    requires s.Valid() && (IsTree(e.mode) ==> s.Height(e.oid) < h) && OneSide(s, h, path, e, false).Done?
    ensures AddedOf(OneSide(s, h, path, e, false).changes) == EntryLeaves(s, h, path, e)
  {
    hide OneSide, EntryLeaves, Removed, AddedOf;
    var common := OneSideConserves(s, h, path, e, false);
    assert common == multiset{};
  }

  /** `x` is reported both as removed and as added. */
  ghost predicate Twice(changes: seq<Change>, x: Item) {
    x in Removed(changes) && x in AddedOf(changes)
  }

  lemma TwiceInPart(c: seq<Change>, d: seq<Change>, x: Item)
    requires Twice(c, x) || Twice(d, x) || (x in AddedOf(c) && x in Removed(d))
    ensures Twice(c + d, x)
  {
    ItemsOfBoth(c, d);
  }

  /** The entry stands behind one with a greater name, or it is a file whose mode is spelled
      otherwise in `y`. */
  predicate Misplaced(xs: seq<Entry>, l: nat, y: Entry)
    requires l < |xs|
  {
    || (exists k :: 0 <= k < l && BytesLess(xs[l].name, xs[k].name))
    || (!IsTree(xs[l].mode) && !IsTree(y.mode) && xs[l].mode != y.mode)
  }

  /** The walk against `y` alone adds `y` before it comes to the misplaced entry, or takes the two
      for different. */
  lemma {:induction false} MisplacedIsReported(s: Store, g: nat, prefix: Path, xs: seq<Entry>, l: nat, y: Entry, x: Item)
    requires s.Valid() && s.LowerThan(xs, g) && s.LowerThan([y], g) && l < |xs|
    requires xs[l].name == y.name && DistinctNames(xs) && Misplaced(xs, l, y) && (IsTree(y.mode) ==> s.Height(y.oid) < g)
    requires x in EntryLeaves(s, g, Join(prefix, y.name), xs[l]) && x in EntryLeaves(s, g, Join(prefix, y.name), y)
    requires Lockstep(s, g, g, prefix, xs, [y]).Done?
    ensures Twice(Lockstep(s, g, g, prefix, xs, [y]).changes, x)
    decreases |xs|
  {
    hide Twice, LeavesOf, Join, Misplaced, BytesLess, OneSide, BothSides;
    assert [y][1..] == [];
    if l == 0 {
      SpelledOtherwise(s, g, Join(prefix, y.name), xs, y, x);
      BytesLessIsStrict(y.name);
      TwiceInPart(BothSides(s, g, g, Join(prefix, y.name), xs[0], y).changes, Lockstep(s, g, g, prefix, xs[1..], []).changes, x);
    } else if BytesLess(xs[0].name, y.name) {
      MisplacedInRest(xs, l, y);
      MisplacedIsReported(s, g, prefix, xs[1..], l - 1, y, x);
      TwiceInPart(OneSide(s, g, Join(prefix, xs[0].name), xs[0], true).changes, Lockstep(s, g, g, prefix, xs[1..], [y]).changes, x);
    } else {
      AllIsAdded(s, g, Join(prefix, y.name), y);
      AllIsRemoved(s, g, g, prefix, xs);
      LeafIsListed(s, g, prefix, xs, l, x);
      TwiceInPart(OneSide(s, g, Join(prefix, y.name), y, false).changes, Lockstep(s, g, g, prefix, xs, []).changes, x);
    }
  }

  lemma SpelledOtherwise(s: Store, g: nat, path: Path, xs: seq<Entry>, y: Entry, x: Item)
    requires s.Valid() && s.LowerThan(xs, g) && (IsTree(y.mode) ==> s.Height(y.oid) < g) && xs != [] && Misplaced(xs, 0, y)
    requires x in EntryLeaves(s, g, path, xs[0]) && x in EntryLeaves(s, g, path, y)
    ensures [y][0] == y && BothSides(s, g, g, path, xs[0], y).Done? && Twice(BothSides(s, g, g, path, xs[0], y).changes, x)
  {
    ItemsOfOne(Changed(FileAt(path, xs[0]), FileAt(path, y)));
    hide Removed, AddedOf;
  }

  lemma MisplacedInRest(xs: seq<Entry>, l: nat, y: Entry)
    requires 0 < l < |xs| && xs[l].name == y.name && Misplaced(xs, l, y) && BytesLess(xs[0].name, y.name)
    ensures Misplaced(xs[1..], l - 1, y)
  {
    hide IsTree;
    if k :| 0 <= k < l && BytesLess(xs[l].name, xs[k].name) {
      if k == 0 {
        BytesLessIsTransitive(xs[0].name, y.name, xs[0].name);
        BytesLessIsStrict(xs[0].name);
      }
      assert BytesLess(xs[1..][l - 1].name, xs[1..][k - 1].name);
    }
  }

  /** The mode as git spells it. */
  function Spelling(mode: Mode): (m: Mode)
    ensures Canonical(m) && Value(m) == Value(mode)
    decreases |mode|
  {
    if |mode| > 1 && mode[0] == 0 then
      ZeroInFront(mode);
      Spelling(mode[1..])
    else mode
  }

  lemma {:induction false} ZeroInFront(mode: seq<Digit>)
    requires mode != [] && mode[0] == 0
    ensures Value(mode) == Value(mode[1..])
    decreases |mode|
  {
    if |mode| > 1 {
      ZeroInFront(mode[..|mode| - 1]);
      assert mode[..|mode| - 1][1..] == mode[1..][..|mode| - 2];
    }
  }

  /** The walk reports nothing twice, whichever tree in order is on the other side. */
  ghost predicate AlwaysExact(s: Store, g: nat, prefix: Path, xs: seq<Entry>)
    requires s.Valid() && s.LowerThan(xs, g)
  {
    forall h, ys :: s.LowerThan(ys, h) && Orderly(s, ys) && Lockstep(s, g, h, prefix, xs, ys).Done?
                    ==> Exact(Lockstep(s, g, h, prefix, xs, ys).changes)
  }

  /** Whatever is out of order, or spelled in another way than git's, some tree shows it. */
  lemma OnlyOrderlyIsExact(s: Store, g: nat, prefix: Path, xs: seq<Entry>)
    requires s.Valid() && s.LowerThan(xs, g) && Complete(s) && CanRead(s, xs) && AllPlain(xs) && DistinctNames(xs)
    requires AlwaysExact(s, g, prefix, xs)
    ensures Orderly(s, xs)
  {
    forall k, l | 0 <= k < l < |xs| && Shows(s, xs[l])
      ensures BytesLess(xs[k].name, xs[l].name)
    {
      if !BytesLess(xs[k].name, xs[l].name) {
        BytesLessIsTotal(xs[k].name, xs[l].name);
        MisplacedIsSeen(s, g, prefix, xs, l);
      }
    }
    forall l | 0 <= l < |xs| && !IsTree(xs[l].mode)
      ensures Canonical(xs[l].mode)
    {
      if !Canonical(xs[l].mode) {
        MisplacedIsSeen(s, g, prefix, xs, l);
      }
    }
  }

  /** `y` is the misplaced entry alone, its mode spelled as git does. */
  lemma MisplacedIsSeen(s: Store, g: nat, prefix: Path, xs: seq<Entry>, l: nat)
    requires s.Valid() && s.LowerThan(xs, g) && Complete(s) && CanRead(s, xs) && AllPlain(xs) && DistinctNames(xs)
    requires l < |xs| && Shows(s, xs[l])
    requires var e := xs[l]; Misplaced(xs, l, e.(mode := if IsTree(e.mode) then e.mode else Spelling(e.mode)))
    ensures !AlwaysExact(s, g, prefix, xs)
  {
    var e := xs[l];
    var y := e.(mode := if IsTree(e.mode) then e.mode else Spelling(e.mode));
    var path := Join(prefix, y.name);
    var x := ShownLeaf(s, g, path, e);
    AloneIsOrderly(s, y);
    SameLeaves(s, g, path, e, y, x);
    ReadLockstepIsDone(s, g, g, prefix, xs, [y]);
    hide Lockstep, Orderly, Misplaced, EntryLeaves, Join;
    MisplacedIsReported(s, g, prefix, xs, l, y, x);
  }

  lemma AloneIsOrderly(s: Store, y: Entry)
    requires s.Valid() && Plain(y.name) && (!IsTree(y.mode) ==> Canonical(y.mode))
    ensures Orderly(s, [y])
  {
  }

  lemma SameLeaves(s: Store, g: nat, path: Path, e: Entry, y: Entry, x: Item)
    requires s.Valid() && (IsTree(e.mode) ==> s.Height(e.oid) < g) && x in EntryLeaves(s, g, path, e)
    requires y == e.(mode := if IsTree(e.mode) then e.mode else Spelling(e.mode))
    ensures IsTree(y.mode) == IsTree(e.mode) && x in EntryLeaves(s, g, path, y)
  {
  }

  /** Among trees in order: diffs of a tree never report anything unchanged if and only if its
      files have canonical modes and each entry with a leaf comes behind smaller names only. */
  lemma ExactExactlyInByteOrder(s: Store, g: nat, prefix: Path, xs: seq<Entry>)
    requires s.Valid() && s.LowerThan(xs, g) && Complete(s) && CanRead(s, xs) && AllOrderly(s)
    requires AllPlain(xs) && DistinctNames(xs)
    ensures AlwaysExact(s, g, prefix, xs) <==> Orderly(s, xs)
  {
    hide Orderly, AllOrderly, Lockstep, Exact;
    if Orderly(s, xs) {
      forall h, ys | s.LowerThan(ys, h) && Orderly(s, ys) && Lockstep(s, g, h, prefix, xs, ys).Done?
        ensures Exact(Lockstep(s, g, h, prefix, xs, ys).changes)
      {
        LockstepIsExact(s, g, h, prefix, xs, ys);
      }
    }
    if AlwaysExact(s, g, prefix, xs) {
      OnlyOrderlyIsExact(s, g, prefix, xs);
    }
  }

  /** In a whole store: no diff against a tree in order ever reports anything unchanged if and
      only if all its trees are in order. */
  lemma StoreIsExactExactlyInByteOrder(s: Store, prefix: Path)
    requires s.Valid() && Complete(s)
    requires forall t :: t in s.trees ==> AllPlain(s.trees[t]) && DistinctNames(s.trees[t])
    ensures AllOrderly(s) <==> forall t :: t in s.trees ==> AlwaysExact(s, s.height[t] + 1, prefix, s.trees[t])
  {
    hide AlwaysExact, Orderly, AllPlain, DistinctNames, CanRead;
    if AllOrderly(s) {
      forall t | t in s.trees
        ensures AlwaysExact(s, s.height[t] + 1, prefix, s.trees[t])
      {
        ExactExactlyInByteOrder(s, s.height[t] + 1, prefix, s.trees[t]);
      }
    }
    if forall t :: t in s.trees ==> AlwaysExact(s, s.height[t] + 1, prefix, s.trees[t]) {
      forall t | t in s.trees
        ensures Orderly(s, s.trees[t])
      {
        OnlyOrderlyIsExact(s, s.height[t] + 1, prefix, s.trees[t]);
      }
    }
  }

  // ---- git's own order ----

  /** What git sorts an entry by: the name of a directory with a slash behind it. */
  function SortKey(e: Entry): Bytes {
    if IsTree(e.mode) then e.name + [SLASH] else e.name
  }

  predicate InGitOrder(entries: seq<Entry>) {
    forall k, l :: 0 <= k < l < |entries| ==> BytesLess(SortKey(entries[k]), SortKey(entries[l]))
  }

  /** `name` goes on where `dir` ends, with a byte that comes before the slash. */
  predicate GoesOnBelowSlash(name: Bytes, dir: Bytes) {
    |dir| < |name| && name[..|dir|] == dir && name[|dir|] < SLASH
  }

  /** No directory with a leaf stands behind an entry whose name continues its own below the slash. */
  ghost predicate NoneGoesOnBelowSlash(s: Store, entries: seq<Entry>)
    requires s.Valid()
  {
    forall k, l :: 0 <= k < l < |entries| && IsTree(entries[l].mode) && Shows(s, entries[l])
                   ==> !GoesOnBelowSlash(entries[k].name, entries[l].name)
  }

  /** The names of two entries that git puts in this order are in byte order, unless the second is a
      directory and the first goes on below the slash. */
  lemma {:induction false} KeysAndNames(a: Bytes, aTree: bool, b: Bytes, bTree: bool)
    requires SLASH !in a && SLASH !in b && a != b
    requires BytesLess(if aTree then a + [SLASH] else a, if bTree then b + [SLASH] else b)
    ensures BytesLess(a, b) <==> !(bTree && GoesOnBelowSlash(a, b))
    decreases |a|
  {
    if a != [] && b != [] && a[0] == b[0] {
      assert a == [a[0]] + a[1..] && b == [b[0]] + b[1..];
      assert (a + [SLASH])[1..] == a[1..] + [SLASH] && (b + [SLASH])[1..] == b[1..] + [SLASH];
      KeysAndNames(a[1..], aTree, b[1..], bTree);
      if |b| < |a| {
        assert a[..|b|] == [a[0]] + a[1..][..|b| - 1];
      }
    }
  }

  /** A tree in git's order is in byte order if and only if no directory with a leaf stands behind an
      entry that goes on below the slash. */
  lemma GitOrderInBytes(s: Store, entries: seq<Entry>)
    requires s.Valid() && AllPlain(entries) && DistinctNames(entries) && InGitOrder(entries)
    ensures InByteOrder(s, entries) <==> NoneGoesOnBelowSlash(s, entries)
  {
    forall k, l | 0 <= k < l < |entries|
      ensures BytesLess(entries[k].name, entries[l].name)
              <==> !(IsTree(entries[l].mode) && GoesOnBelowSlash(entries[k].name, entries[l].name))
    {
      assert BytesLess(SortKey(entries[k]), SortKey(entries[l]));
      KeysAndNames(entries[k].name, IsTree(entries[k].mode), entries[l].name, IsTree(entries[l].mode));
    }
    hide IsTree, Shows, BytesLess, GoesOnBelowSlash;
  }

  /** A store whose trees are in git's order: no diff against a tree in byte order ever reports
      anything unchanged if and only if in no tree a directory with a leaf stands behind an entry
      that goes on below the slash, and the modes of files are spelled as git does. */
  lemma GitOrderedIsExactExactlyWhen(s: Store, prefix: Path)
    requires s.Valid() && Complete(s)
    requires forall t :: t in s.trees ==> AllPlain(s.trees[t]) && DistinctNames(s.trees[t]) && InGitOrder(s.trees[t])
    ensures (forall t :: t in s.trees ==> AlwaysExact(s, s.height[t] + 1, prefix, s.trees[t]))
            <==> forall t :: t in s.trees ==> NoneGoesOnBelowSlash(s, s.trees[t]) && FilesCanonical(s.trees[t])
  {
    StoreIsExactExactlyInByteOrder(s, prefix);
    forall t | t in s.trees
      ensures InByteOrder(s, s.trees[t]) <==> NoneGoesOnBelowSlash(s, s.trees[t])
    {
      GitOrderInBytes(s, s.trees[t]);
    }
    hide AlwaysExact, AllPlain, DistinctNames, FilesCanonical, InByteOrder, NoneGoesOnBelowSlash, InGitOrder, Complete;
  }

  const FILE: Mode := [1, 0, 0, 6, 4, 4]

  const DIRECTORY: Mode := [4, 0, 0, 0, 0]

  const BLOB: Oid := [1]

  const SUBTREE: Oid := [2]

  const OLD_ROOT: Oid := [3]

  const NEW_ROOT: Oid := [4]

  /** Two trees in git's order, which puts a directory where its name with a slash behind belongs:
      `a.c` and `a/f` before the change, `a/f` and `a0` after it. */
  const GIT_ORDERED := Store(
    map[SUBTREE := [Entry(FILE, [102], BLOB)],
        OLD_ROOT := [Entry(FILE, [97, 46, 99], BLOB), Entry(DIRECTORY, [97], SUBTREE)],
        NEW_ROOT := [Entry(DIRECTORY, [97], SUBTREE), Entry(FILE, [97, 48], BLOB)]],
    map[SUBTREE := 0, OLD_ROOT := 1, NEW_ROOT := 1])

  lemma ModeValues()
    ensures Value(FILE) == 0x81A4 && !IsTree(FILE)
    ensures Value(DIRECTORY) == 0x4000 && IsTree(DIRECTORY)
  {
    assert FILE[..5] == [1, 0, 0, 6, 4] && [1, 0, 0, 6, 4 as Digit][..4] == [1, 0, 0, 6];
    assert [1, 0, 0, 6 as Digit][..3] == [1, 0, 0] && [1, 0, 0 as Digit][..2] == [1, 0] && [1, 0 as Digit][..1] == [1];
    assert Value([1]) == 1 && Value([1, 0]) == 8 && Value([1, 0, 0]) == 64 && Value([1, 0, 0, 6]) == 518;
    assert Value([1, 0, 0, 6, 4]) == 4148;
    assert DIRECTORY[..4] == [4, 0, 0, 0] && [4, 0, 0, 0 as Digit][..3] == [4, 0, 0];
    assert [4, 0, 0 as Digit][..2] == [4, 0] && [4, 0 as Digit][..1] == [4];
    assert Value([4]) == 4 && Value([4, 0]) == 32 && Value([4, 0, 0]) == 256 && Value([4, 0, 0, 0]) == 2048;
  }

  /** In git's order the unchanged file `a/f` is reported as added and as deleted. */
  lemma GitOrderReportsUnchanged()
    ensures GIT_ORDERED.Valid()
    ensures var r := DiffTrees(GIT_ORDERED, [], Tree(OLD_ROOT), Tree(NEW_ROOT));
            r.Done? && File([97, 47, 102], BLOB, 0x81A4) in Removed(r.changes) && !Exact(r.changes)
  {
    ModeValues();
    hide Value, IsTree;
    var s, f := GIT_ORDERED, File([97, 47, 102], BLOB, 0x81A4);
    var c, d, z := s.trees[OLD_ROOT][0], s.trees[OLD_ROOT][1], s.trees[NEW_ROOT][1];
    var cs, ds, zs := [c, d], [d], [z];
    SubtreeAlone(s, f);
    assert cs[1..] == ds && s.trees[NEW_ROOT][1..] == zs && ds[1..] == [] && zs[1..] == [];
    SkippedNames(s, c, d, z);
    ItemsOfFour(f, FileAt([97, 46, 99], c), FileAt([97, 48], z));
    hide DiffTrees, Removed, AddedOf, BytesLess, Join, OneSide;
    var gone, come := Done([Deleted(f)]), Done([Added(f)]);
    assert Lockstep(s, 2, 2, [], [], []) == Done([]);
    assert Lockstep(s, 2, 2, [], [], zs) == Done([Added(FileAt([97, 48], z))] + []);
    assert Lockstep(s, 2, 2, [], ds, zs) == Then(gone, Lockstep(s, 2, 2, [], [], zs));
    assert Lockstep(s, 2, 2, [], cs, zs) == Then(Done([Deleted(FileAt([97, 46, 99], c))]), Lockstep(s, 2, 2, [], ds, zs));
    assert Lockstep(s, 2, 2, [], cs, s.trees[NEW_ROOT]) == Then(come, Lockstep(s, 2, 2, [], cs, zs));
    assert Lockstep(s, 2, 2, [], cs, s.trees[NEW_ROOT]).changes
        == [Added(f), Deleted(FileAt([97, 46, 99], c)), Deleted(f), Added(FileAt([97, 48], z))];
    RootsDiffer(s, cs);
  }

  lemma RootsDiffer(s: Store, cs: seq<Entry>)
    requires s == GIT_ORDERED && s.Valid() && cs == s.trees[OLD_ROOT]
    ensures DiffTrees(s, [], Tree(OLD_ROOT), Tree(NEW_ROOT)) == Lockstep(s, 2, 2, [], cs, s.trees[NEW_ROOT])
  {
  }

  lemma ItemsOfFour(f: Item, c: Item, z: Item)
    ensures var changes := [Added(f), Deleted(c), Deleted(f), Added(z)];
            f in Removed(changes) && f in AddedOf(changes)
  {
    var changes := [Added(f), Deleted(c), Deleted(f), Added(z)];
    assert changes == [Added(f), Deleted(c)] + [Deleted(f), Added(z)];
    ItemsOfBoth([Added(f), Deleted(c)], [Deleted(f), Added(z)]);
    ItemsOfBoth([Added(f)], [Deleted(c)]);
    ItemsOfBoth([Deleted(f)], [Added(z)]);
    ItemsOfOne(Added(f));
    ItemsOfOne(Deleted(f));
  }

  /** How the names compare, and what the one-sided entries report. */
  lemma SkippedNames(s: Store, c: Entry, d: Entry, z: Entry)
    requires s == GIT_ORDERED && s.Valid()
    requires c == Entry(FILE, [97, 46, 99], BLOB) && d == Entry(DIRECTORY, [97], SUBTREE) && z == Entry(FILE, [97, 48], BLOB)
    requires !IsTree(FILE) && IsTree(DIRECTORY)
    ensures !BytesLess(c.name, d.name) && BytesLess(c.name, z.name) && BytesLess(d.name, z.name)
    ensures OneSide(s, 2, Join([], c.name), c, true) == Done([Deleted(FileAt([97, 46, 99], c))])
    ensures OneSide(s, 2, Join([], z.name), z, false) == Done([Added(FileAt([97, 48], z))])
    ensures OneSide(s, 2, Join([], d.name), d, true) == DiffTrees(s, [97], Tree(SUBTREE), Absent)
    ensures OneSide(s, 2, Join([], d.name), d, false) == DiffTrees(s, [97], Absent, Tree(SUBTREE))
  {
    hide DiffTrees, IsTree;
    assert c.name[1..] == [46, 99] && d.name[1..] == [] && z.name[1..] == [48];
  }

  lemma SubtreeAlone(s: Store, f: Item)
    requires s == GIT_ORDERED && f == File([97, 47, 102], BLOB, 0x81A4)
    ensures s.Valid()
    ensures DiffTrees(s, [97], Tree(SUBTREE), Absent) == Done([Deleted(f)])
    ensures DiffTrees(s, [97], Absent, Tree(SUBTREE)) == Done([Added(f)])
  {
    ModeValues();
    hide Value, IsTree, DiffTrees;
    SubtreeSides(s);
    var e := s.trees[SUBTREE];
    assert e[1..] == [] && Join([97], e[0].name) == [97, 47, 102];
    assert OneSide(s, 1, Join([97], e[0].name), e[0], true) == Done([Deleted(f)]);
    assert OneSide(s, 1, Join([97], e[0].name), e[0], false) == Done([Added(f)]);
    hide Join, OneSide;
    NothingLeft(s, 1, 0, [97]);
    NothingLeft(s, 0, 1, [97]);
    assert Lockstep(s, 1, 0, [97], e, []) == Done([Deleted(f)] + []);
    assert Lockstep(s, 0, 1, [97], [], e) == Done([Added(f)] + []);
  }

  lemma SubtreeSides(s: Store)
    requires s == GIT_ORDERED && s.Valid()
    ensures DiffTrees(s, [97], Tree(SUBTREE), Absent) == Lockstep(s, 1, 0, [97], s.trees[SUBTREE], [])
    ensures DiffTrees(s, [97], Absent, Tree(SUBTREE)) == Lockstep(s, 0, 1, [97], [], s.trees[SUBTREE])
  {
    hide Lockstep, IsTree;
  }

  // ---- modes spelled otherwise ----

  /** Two trees with one file and the modes `0644` and `644`. */
  const SPELLED := Store(
    map[OLD_ROOT := [Entry([0, 6, 4, 4], [102], BLOB)], NEW_ROOT := [Entry([6, 4, 4], [102], BLOB)]],
    map[OLD_ROOT := 0, NEW_ROOT := 0])

  lemma SpelledValues()
    ensures Value([0, 6, 4, 4]) == Value([6, 4, 4]) == 420 && !IsTree([0, 6, 4, 4]) && !IsTree([6, 4, 4])
  {
    assert [6, 4, 4 as Digit][..2] == [6, 4] && [6, 4 as Digit][..1] == [6];
    assert Value([6]) == 6 && Value([6, 4]) == 52;
    ZeroInFront([0, 6, 4, 4]);
    assert [0, 6, 4, 4 as Digit][1..] == [6, 4, 4];
  }

  /** The file is reported as changed from itself to itself. */
  lemma OtherSpellingReportsUnchanged()
    ensures SPELLED.Valid()
    ensures var r := DiffTrees(SPELLED, [], Tree(OLD_ROOT), Tree(NEW_ROOT));
            && r == Done([Changed(File([102], BLOB, 420), File([102], BLOB, 420))])
            && !Exact(r.changes)
  {
    SpelledValues();
    hide Value, IsTree;
    var s, f := SPELLED, File([102], BLOB, 420);
    var x, y := s.trees[OLD_ROOT][0], s.trees[NEW_ROOT][0];
    SpelledRoots(s);
    assert BothSides(s, 1, 1, Join([], y.name), x, y) == Done([Changed(f, f)]);
    BytesLessIsStrict(y.name);
    hide BothSides, Join, BytesLess, DiffTrees;
    NothingLeft(s, 1, 1, []);
    assert [x][1..] == [] && [y][1..] == [] && [Changed(f, f)] + [] == [Changed(f, f)];
    assert Lockstep(s, 1, 1, [], [x], [y]) == Done([Changed(f, f)]);
    ItemsOfOne(Changed(f, f));
  }

  lemma SpelledRoots(s: Store)
    requires s == SPELLED && !IsTree([0, 6, 4, 4]) && !IsTree([6, 4, 4])
    ensures s.Valid()
    ensures DiffTrees(s, [], Tree(OLD_ROOT), Tree(NEW_ROOT)) == Lockstep(s, 1, 1, [], s.trees[OLD_ROOT], s.trees[NEW_ROOT])
  {
    hide Lockstep, IsTree;
  }
}
