/** The cache of delta bases (crates/alt-git-pack/src/cache.rs).

    Entries carry the tick of their last use. A put that takes the cache above its budget
    drops the least recently used entries until half the budget is reached, and no more. */
module DeltaCache {
  import opened Objects
  import opened Octets
  import opened PackResolve

  datatype Cached = Cached(kind: ObjectKind, data: Bytes, last: nat)

  type Table = map<nat, Cached>

  // ---- what the cache holds ----

  /** The bytes that a table holds. */
  ghost function Total(m: Table): nat {
    if m == map[] then 0
    else
      var k :| k in m;
      |m[k].data| + Total(m - {k})
  }

  lemma {:induction false} TotalWithout(m: Table, k: nat)
    requires k in m
    ensures Total(m) == |m[k].data| + Total(m - {k})
    decreases |m|
  {
    var c :| c in m && Total(m) == |m[c].data| + Total(m - {c});
    if c != k {
      TotalWithout(m - {c}, k);
      TotalWithout(m - {k}, c);
      assert m - {c} - {k} == m - {k} - {c};
    }
  }

  /** A put replaces the bytes of the key. */
  lemma TotalAfterPut(m: Table, k: nat, e: Cached)
    ensures Total(m[k := e]) == Total(m) - (if k in m then |m[k].data| else 0) + |e.data|
  {
    TotalWithout(m[k := e], k);
    if k in m {
      TotalWithout(m, k);
      assert m[k := e] - {k} == m - {k};
    } else {
      assert m[k := e] - {k} == m;
    }
  }

  /** No two entries were used at the same tick. */
  predicate DistinctTicks(m: Table) {
    forall j, k :: j in m && k in m && j != k ==> m[j].last != m[k].last
  }

  /** `after` is `before` without its least recently used entries: none too few to come down to
      `target`, and none too many. */
  ghost predicate Evicted(before: Table, after: Table, target: nat) {
    && (forall k :: k in after ==> k in before && before[k] == after[k])
    && (forall x, y :: x in before && x !in after && y in after ==> before[x].last < after[y].last)
    && Total(after) <= target
    && (after != before ==> exists x :: LastEvicted(before, after, x) && Total(after) + |before[x].data| > target)
  }

  /** `x` is the most recently used of the evicted entries. */
  ghost predicate LastEvicted(before: Table, after: Table, x: nat) {
    && x in before && x !in after
    && forall k :: k in before && k !in after ==> before[k].last <= before[x].last
  }

  /** If even the most recently used entry goes, it does not fit. */
  lemma YoungestEvicted(before: Table, after: Table, target: nat, y: nat)
    requires Evicted(before, after, target) && DistinctTicks(before)
    requires y in before && y !in after
    requires forall k :: k in before ==> before[k].last <= before[y].last
    ensures |before[y].data| > target
  {
    assert after == map[];
    var x :| LastEvicted(before, after, x) && Total(after) + |before[x].data| > target;
    assert x == y;
  }

  lemma EvictedIsPart(before: Table, after: Table, target: nat)
    requires Evicted(before, after, target)
    ensures Total(after) <= target && forall k :: k in after ==> k in before && before[k] == after[k]
  {
  }

  /** What is kept is determined by what was there and by the target. */
  lemma EvictionIsUnique(before: Table, one: Table, two: Table, target: nat)
    requires Evicted(before, one, target) && Evicted(before, two, target) && DistinctTicks(before)
    ensures one == two
  {
    if one.Keys <= two.Keys {
      KeepsAsMuch(before, one, two, target);
    } else {
      var z :| z in one && z !in two;
      assert forall k :: k in two ==> k in one by {
        forall k | k in two
          ensures k in one
        {
          assert before[z].last < two[k].last;
        }
      }
      KeepsAsMuch(before, two, one, target);
    }
  }

  lemma KeepsAsMuch(before: Table, one: Table, two: Table, target: nat)
    requires Evicted(before, one, target) && Evicted(before, two, target) && DistinctTicks(before)
    requires one.Keys <= two.Keys
    ensures one == two
  {
    hide Total, LastEvicted, DistinctTicks;
    if w :| w in two && w !in one {
      KeepsTooMuch(before, one, two, target, w);
    }
  }

  lemma KeepsTooMuch(before: Table, one: Table, two: Table, target: nat, w: nat)
    requires Evicted(before, one, target) && DistinctTicks(before) && w in two && w !in one
    requires forall k :: k in two ==> k in before && before[k] == two[k]
    requires forall x, y :: x in before && x !in two && y in two ==> before[x].last < two[y].last
    requires one.Keys <= two.Keys
    ensures Total(two) > target
  {
    hide Total;
    var x :| LastEvicted(before, one, x) && Total(one) + |before[x].data| > target;
    assert before[w].last <= before[x].last;
    TotalWithout(two, x);
    TotalOfMore(one, two - {x});
  }

  lemma {:induction false} TotalOfMore(m: Table, n: Table)
    requires forall k :: k in m ==> k in n && n[k] == m[k]
    ensures Total(m) <= Total(n)
    decreases |m|
  {
    if m != map[] {
      var k :| k in m;
      TotalWithout(m, k);
      TotalWithout(n, k);
      TotalOfMore(m - {k}, n - {k});
    }
  }

  // ---- oldest first ----

  predicate AgeOrdered(m: Table, s: seq<nat>) {
    && (forall i :: 0 <= i < |s| ==> s[i] in m)
    && (forall i, j :: 0 <= i < j < |s| ==> m[s[i]].last < m[s[j]].last)
  }

  /** `s` lists the keys of `m`, the least recently used first. */
  predicate IsByAge(m: Table, s: seq<nat>) {
    AgeOrdered(m, s) && forall k :: k in m ==> k in s
  }

  /** Puts `k` where its age belongs. */
  method InsertByAge(m: Table, s: seq<nat>, k: nat) returns (r: seq<nat>)
    requires DistinctTicks(m) && k in m && k !in s && AgeOrdered(m, s)
    ensures AgeOrdered(m, r) && forall j :: j in r <==> j in s || j == k
  {
    var i := |s|;
    while i > 0 && m[s[i - 1]].last > m[k].last
      invariant 0 <= i <= |s|
      invariant forall j :: i <= j < |s| ==> m[s[j]].last > m[k].last
    {
      i := i - 1;
    }
    assert i > 0 ==> m[s[i - 1]].last < m[k].last;
    r := s[..i] + [k] + s[i..];
    Inserted(m, s, k, i);
  }

  lemma Inserted(m: Table, s: seq<nat>, k: nat, i: nat)
    requires i <= |s| && k in m && AgeOrdered(m, s)
    requires forall j :: i <= j < |s| ==> m[s[j]].last > m[k].last
    requires i > 0 ==> m[s[i - 1]].last < m[k].last
    ensures var r := s[..i] + [k] + s[i..];
            AgeOrdered(m, r) && forall j :: j in r <==> j in s || j == k
  {
    var r := s[..i] + [k] + s[i..];
    InsertedKeys(s, k, i);
    forall j, n | 0 <= j < n < |r|
      ensures r[j] in m && r[n] in m && m[r[j]].last < m[r[n]].last
    {
      assert r[j] == if j < i then s[j] else if j == i then k else s[j - 1];
      assert r[n] == if n < i then s[n] else if n == i then k else s[n - 1];
    }
    assert |r| == 1 ==> r[0] == k;
  }

  lemma InsertedKeys(s: seq<nat>, k: nat, i: nat)
    requires i <= |s|
    ensures forall j :: j in s[..i] + [k] + s[i..] <==> j in s || j == k
  {
    assert s == s[..i] + s[i..];
  }

  /** The keys of a table, the least recently used first. */
  method SortByAge(m: Table) returns (s: seq<nat>)
    requires DistinctTicks(m)
    ensures IsByAge(m, s)
  {
    s := [];
    var rest := m.Keys;
    while rest != {}
      invariant rest <= m.Keys && AgeOrdered(m, s)
      invariant forall k :: k in m ==> (k in s <==> k !in rest)
    {
      var k :| k in rest;
      s := InsertByAge(m, s, k);
      rest := rest - {k};
    }
  }

  // ---- the cache ----

  class DeltaBaseCache {
    var entries: Table
    var bytes: nat
    const budget: nat
    var tick: nat

    /** The byte counter is right and within the budget, and the ticks tell entries apart. */
    ghost predicate Valid()
      reads this
    {
      Counted() && bytes <= budget
    }

    ghost predicate Counted()
      reads this
    {
      && bytes == Total(entries)
      && DistinctTicks(entries)
      && forall k :: k in entries ==> entries[k].last <= tick
    }

    /** The object cached for `offset`. */
    ghost predicate Holds(offset: nat, o: Object)
      reads this
    {
      offset in entries && o == Object(entries[offset].kind, entries[offset].data)
    }

    constructor (budget: nat)
      ensures Valid() && entries == map[] && this.budget == budget
    {
      entries, bytes, tick := map[], 0, 0;
      this.budget := budget;
    }

    /** Looks an entry up and makes it the most recently used one. */
    method Get(offset: nat) returns (hit: Slot)
      requires Valid()
      modifies this
      ensures Valid()
      ensures if offset in old(entries) then hit.Full? && Holds(offset, hit.found) else hit.Empty?
      ensures entries.Keys == old(entries).Keys
      ensures forall k :: k in entries ==>
        entries[k] == if k == offset then old(entries)[k].(last := tick) else old(entries)[k]
      ensures forall k :: k in entries && k != offset ==> entries[k].last < tick
    {
      tick := tick + 1;
      if offset !in entries {
        return Empty;
      }
      var e := entries[offset];
      TotalAfterPut(entries, offset, e.(last := tick));
      entries := entries[offset := e.(last := tick)];
      hit := Full(Object(e.kind, e.data));
    }

    /** Caches an object, unless it is larger than a quarter of the budget. It survives the
        eviction it may cause. */
    method Put(offset: nat, o: Object)
      requires Valid()
      modifies this
      ensures Valid()
      ensures |o.data| > budget / 4 ==> entries == old(entries) && tick == old(tick)
      ensures |o.data| <= budget / 4 ==>
        && Holds(offset, o) && entries[offset].last == tick == old(tick) + 1
        && var full := old(entries)[offset := Cached(o.kind, o.data, tick)];
           if Total(full) <= budget then entries == full else Evicted(full, entries, budget / 2)
    {
      hide Total, Evicted;
      if |o.data| > budget / 4 {
        return;
      }
      tick := tick + 1;
      TotalAfterPut(entries, offset, Cached(o.kind, o.data, tick));
      if offset in entries {
        TotalWithout(entries, offset);
        bytes := bytes - |entries[offset].data|;
      }
      entries := entries[offset := Cached(o.kind, o.data, tick)];
      bytes := bytes + |o.data|;
      if bytes > budget {
        ghost var full := entries;
        EvictTo(budget / 2);
        if offset !in entries {
          YoungestEvicted(full, entries, budget / 2, offset);
        }
        EvictedIsPart(full, entries, budget / 2);
      }
    }

    /** Drops the least recently used entries until at most `target` bytes are left. */
    method EvictTo(target: nat)
      requires Counted()
      modifies this`entries, this`bytes
      ensures Counted() && Evicted(old(entries), entries, target)
    {
      var byAge := SortByAge(entries);
      ghost var before := entries;
      NothingDroppedYet(before, byAge, bytes, target);
      hide *;
      var i := 0;
      while i < |byAge|
        invariant i <= |byAge| && DroppedSoFar(before, entries, byAge, i, bytes, target)
      {
        if bytes <= target {
          break;
        }
        var off := byAge[i];
        NextToDrop(before, entries, byAge, i, bytes, target);
        entries, bytes := entries - {off}, bytes - |entries[off].data|;
        i := i + 1;
      }
      if i == |byAge| {
        AllDropped(before, entries, byAge, bytes, target);
      }
      EvictedSoFar(before, entries, byAge, i, bytes, target);
      IsCounted();
    }

    lemma IsCounted()
      requires bytes == Total(entries) && DistinctTicks(entries)
      requires forall k :: k in entries ==> entries[k].last <= tick
      ensures Counted()
    {
    }
  }

  /** `after` is `before` without the first `i` keys of `byAge`. */
  ghost predicate DroppedFirst(before: Table, after: Table, byAge: seq<nat>, i: nat) {
    && IsByAge(before, byAge) && i <= |byAge|
    && (forall k :: k in after ==> k in before && after[k] == before[k])
    && (forall j :: 0 <= j < |byAge| ==> (byAge[j] in after <==> j >= i))
  }

  /** `after` holds `bytes`, and held more than `target` before the last entry was dropped. */
  ghost predicate DroppedSoFar(before: Table, after: Table, byAge: seq<nat>, i: nat, bytes: nat, target: nat) {
    && DroppedFirst(before, after, byAge, i) && bytes == Total(after)
    && (i > 0 ==> bytes + |before[byAge[i - 1]].data| > target)
  }

  lemma NothingDroppedYet(before: Table, byAge: seq<nat>, bytes: nat, target: nat)
    requires IsByAge(before, byAge) && bytes == Total(before)
    ensures DroppedSoFar(before, before, byAge, 0, bytes, target)
  {
    hide Total;
  }

  lemma NextToDrop(before: Table, after: Table, byAge: seq<nat>, i: nat, bytes: nat, target: nat)
    requires DroppedSoFar(before, after, byAge, i, bytes, target) && i < |byAge| && bytes > target
    ensures byAge[i] in after && |after[byAge[i]].data| <= bytes
    ensures DroppedSoFar(before, after - {byAge[i]}, byAge, i + 1, bytes - |after[byAge[i]].data|, target)
  {
    hide Total;
    DropOne(before, after, byAge, i);
    TotalWithout(after, byAge[i]);
    hide DroppedFirst;
  }

  lemma DropOne(before: Table, after: Table, byAge: seq<nat>, i: nat)
    requires DroppedFirst(before, after, byAge, i) && i < |byAge|
    ensures byAge[i] in before && byAge[i] in after && after[byAge[i]] == before[byAge[i]]
    ensures DroppedFirst(before, after - {byAge[i]}, byAge, i + 1)
  {
  }

  lemma AllDropped(before: Table, after: Table, byAge: seq<nat>, bytes: nat, target: nat)
    requires DroppedSoFar(before, after, byAge, |byAge|, bytes, target)
    ensures after == map[] && bytes == 0
  {
    forall k | k in before
      ensures k !in after
    {
      var j :| 0 <= j < |byAge| && byAge[j] == k;
    }
  }

  lemma EvictedSoFar(before: Table, after: Table, byAge: seq<nat>, i: nat, bytes: nat, target: nat)
    requires DroppedSoFar(before, after, byAge, i, bytes, target) && bytes <= target
    ensures Evicted(before, after, target) && bytes == Total(after)
    ensures forall k :: k in after ==> k in before && after[k] == before[k]
    ensures DistinctTicks(before) ==> DistinctTicks(after)
  {
    hide Total;
    KeepsTheYoungest(before, after, byAge, i);
    if i == 0 {
      NothingDropped(before, after, byAge);
    } else {
      LastToGo(before, after, byAge, i);
      assert LastEvicted(before, after, byAge[i - 1]);
    }
  }

  lemma KeepsTheYoungest(before: Table, after: Table, byAge: seq<nat>, i: nat)
    requires DroppedFirst(before, after, byAge, i)
    ensures forall x, y :: x in before && x !in after && y in after ==> before[x].last < after[y].last
  {
    forall x, y | x in before && x !in after && y in after
      ensures before[x].last < after[y].last
    {
      var m :| 0 <= m < |byAge| && byAge[m] == x;
      var n :| 0 <= n < |byAge| && byAge[n] == y;
    }
  }

  lemma LastToGo(before: Table, after: Table, byAge: seq<nat>, i: nat)
    requires DroppedFirst(before, after, byAge, i) && i > 0
    ensures LastEvicted(before, after, byAge[i - 1])
  {
    forall k | k in before && k !in after
      ensures before[k].last <= before[byAge[i - 1]].last
    {
      var m :| 0 <= m < |byAge| && byAge[m] == k;
    }
  }

  lemma NothingDropped(before: Table, after: Table, byAge: seq<nat>)
    requires DroppedFirst(before, after, byAge, 0)
    ensures after == before
  {
    forall k | k in before
      ensures k in after
    {
      var j :| 0 <= j < |byAge| && byAge[j] == k;
    }
  }
}
