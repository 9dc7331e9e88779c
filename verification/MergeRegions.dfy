/** The regions of a three-way merge (crates/alt-merge/src/lib.rs, `merge_edits`).

    Two scripts over one base cut base, ours and theirs into the same list of regions. A
    region is one line that all three share, or the smallest stretch that starts at an edit
    and that no edit of either script leaves. This file defines the regions without the
    loops of the source and proves what they are; `Merge` proves that the loops find them. */
module MergeRegions {
  import opened EditScript

  /** The input of a merge: base, ours, theirs and the two scripts. */
  datatype Job<T> = Job(o: seq<T>, a: seq<T>, b: seq<T>, ea: seq<Edit>, eb: seq<Edit>) {
    ghost predicate Valid() {
      ValidScript(o, a, ea) && ValidScript(o, b, eb)
    }

    function Swap(): Job<T> {
      Job(o, b, a, eb, ea)
    }
  }

  /** Positions in base, ours and theirs, and the number of edits consumed on each side. */
  datatype Cursor = Cursor(oi: nat, ai: nat, bi: nat, pa: nat, pb: nat) {
    function Swap(): Cursor {
      Cursor(oi, bi, ai, pb, pa)
    }
  }

  const START := Cursor(0, 0, 0, 0, 0)

  /** A region: a range of each sequence, and the edits of each script inside it. */
  datatype Region = Region(o: Range, a: Range, b: Range, ea: Range, eb: Range) {
    function Swap(): Region {
      Region(o, b, a, eb, ea)
    }

    function After(): Cursor {
      Cursor(o.end, a.end, b.end, ea.end, eb.end)
    }
  }

  /** The lines `s[r]`, empty when the range is not inside `s`. */
  function Slice<T>(s: seq<T>, r: Range): seq<T> {
    if r.start <= r.end <= |s| then s[r.start..r.end] else []
  }

  // ---- how far a region reaches ----

  /** No edit from `p` on that starts at or before `end` reaches past it. */
  predicate Closed(es: seq<Edit>, p: nat, end: nat) {
    forall k :: p <= k < |es| && es[k].del.start <= end ==> es[k].del.end <= end
  }

  predicate BothClosed<T>(j: Job<T>, c: Cursor, end: nat) {
    Closed(j.ea, c.pa, end) && Closed(j.eb, c.pb, end)
  }

  /** The first edit from `p` on that starts after `end`. */
  function Past(es: seq<Edit>, p: nat, end: nat): (n: nat)
    ensures p <= n && (p <= |es| ==> n <= |es|)
    ensures forall k :: p <= k < n ==> k < |es| && es[k].del.start <= end
    ensures n < |es| ==> es[n].del.start > end
    decreases |es| - p
  {
    if p < |es| && es[p].del.start <= end then Past(es, p + 1, end) else p
  }

  /** The least bound from `end` on that is closed for both scripts. */
  function LeastClosed<T>(j: Job<T>, c: Cursor, end: nat): (r: nat)
    requires end <= |j.o| && BothClosed(j, c, |j.o|)
    ensures end <= r <= |j.o| && BothClosed(j, c, r)
    ensures forall d :: end <= d && BothClosed(j, c, d) ==> r <= d
    decreases |j.o| - end
  {
    if BothClosed(j, c, end) then end else LeastClosed(j, c, end + 1)
  }

  // ---- the walk ----

  /** The sequences are aligned at the cursor: what is left of each script is a script for
      what is left of its pair. */
  ghost predicate Aligned<T>(o: seq<T>, side: seq<T>, es: seq<Edit>, oi: nat, si: nat, p: nat) {
    oi <= |o| && si <= |side| && p <= |es| && Script(o, side, Window(oi, |o|, si, |side|), es[p..])
  }

  ghost predicate Synced<T>(j: Job<T>, c: Cursor) {
    Aligned(j.o, j.a, j.ea, c.oi, c.ai, c.pa) && Aligned(j.o, j.b, j.eb, c.oi, c.bi, c.pb)
  }

  predicate Here(es: seq<Edit>, p: nat, oi: nat) {
    p < |es| && es[p].del.start == oi
  }

  predicate Diverges<T>(j: Job<T>, c: Cursor) {
    Here(j.ea, c.pa, c.oi) || Here(j.eb, c.pb, c.oi)
  }

  predicate Finished<T>(j: Job<T>, c: Cursor) {
    !Diverges(j, c) && c.oi >= |j.o|
  }

  /** Where `end` in the base lands on the side, after the edits `es[p..n]`. */
  function SideEnd(es: seq<Edit>, p: nat, n: nat, oi: nat, si: nat, end: nat): int
    requires p <= n <= |es|
  {
    if p == n then si + (end - oi) else es[n - 1].ins.end + (end - es[n - 1].del.end)
  }

  /** Every edit that is left ends inside the base, and starts at or after the cursor, in order. */
  lemma {:induction false} AlignedEdits<T>(o: seq<T>, side: seq<T>, es: seq<Edit>, oi: nat, si: nat, p: nat)
    requires Aligned(o, side, es, oi, si, p)
    ensures forall k :: p <= k < |es| ==> oi <= es[k].del.start <= es[k].del.end <= |o|
    ensures forall k, m :: p <= k < m < |es| ==> es[k].del.end <= es[m].del.start
    decreases |es| - p
  {
    if p < |es| {
      var e := es[p];
      assert es[p..][1..] == es[p + 1..];
      AlignedEdits(o, side, es, e.del.end, e.ins.end, p + 1);
    }
  }

  lemma SyncedIsBounded<T>(j: Job<T>, c: Cursor)
    requires Synced(j, c)
    ensures BothClosed(j, c, |j.o|)
  {
    AlignedEdits(j.o, j.a, j.ea, c.oi, c.ai, c.pa);
    AlignedEdits(j.o, j.b, j.eb, c.oi, c.bi, c.pb);
  }

  /** Up to the next edit the two sequences are equal and stay aligned. */
  lemma AlignedInGap<T>(o: seq<T>, side: seq<T>, es: seq<Edit>, oi: nat, si: nat, p: nat, end: nat)
    requires Aligned(o, side, es, oi, si, p)
    requires oi <= end <= if p < |es| then es[p].del.start else |o|
    ensures SameRun(o, oi, end, side, si, si + (end - oi))
    ensures Aligned(o, side, es, end, si + (end - oi), p)
  {
    var u := if p < |es| then es[p].del.start else |o|;
    var v := if p < |es| then es[p].ins.start else |side|;
    assert es[p..] != [] <==> p < |es|;
    SameRunLength(o, oi, u, side, si, v);
    CutRun(o, oi, end, u, side, si, si + (end - oi), v);
  }

  /** The sequences are aligned again behind the edits that start at or before `end`, if those
      end there at the latest; and those edits are a script for the stretch in between. */
  lemma {:induction false} AlignedAfter<T>(o: seq<T>, side: seq<T>, es: seq<Edit>, oi: nat, si: nat, p: nat, end: nat)
    requires Aligned(o, side, es, oi, si, p) && oi <= end <= |o| && Closed(es, p, end)
    ensures var n := Past(es, p, end);
            && si <= SideEnd(es, p, n, oi, si, end)
            && Aligned(o, side, es, end, SideEnd(es, p, n, oi, si, end), n)
            && Script(o, side, Window(oi, end, si, SideEnd(es, p, n, oi, si, end)), es[p..n])
    decreases |es| - p
  {
    var n := Past(es, p, end);
    if n == p {
      AlignedInGap(o, side, es, oi, si, p, end);
      assert es[p..p] == [];
    } else {
      AlignedPastOne(o, side, es, oi, si, p, end);
      AlignedAfter(o, side, es, es[p].del.end, es[p].ins.end, p + 1, end);
      hide Script, SameRun, Past, Closed;
      ScriptOneMore(o, side, es, oi, si, p, n, end);
    }
  }

  /** The first edit that is left lies in the region, and the others go on from its end. */
  lemma AlignedPastOne<T>(o: seq<T>, side: seq<T>, es: seq<Edit>, oi: nat, si: nat, p: nat, end: nat)
    requires Aligned(o, side, es, oi, si, p) && oi <= end <= |o| && Closed(es, p, end) && Past(es, p, end) > p
    ensures p < |es| && oi <= es[p].del.start <= es[p].del.end <= end && si <= es[p].ins.start <= es[p].ins.end
    ensures SameRun(o, oi, es[p].del.start, side, si, es[p].ins.start)
    ensures Aligned(o, side, es, es[p].del.end, es[p].ins.end, p + 1) && Closed(es, p + 1, end)
    ensures Past(es, p, end) == Past(es, p + 1, end)
  {
    assert es[p..][1..] == es[p + 1..];
    hide SameRun;
  }

  lemma ScriptOneMore<T>(o: seq<T>, side: seq<T>, es: seq<Edit>, oi: nat, si: nat, p: nat, n: nat, end: nat)
    requires p < n <= |es| && oi <= es[p].del.start <= es[p].del.end <= end <= |o|
    requires si <= es[p].ins.start <= es[p].ins.end <= SideEnd(es, p + 1, n, es[p].del.end, es[p].ins.end, end) <= |side|
    requires SameRun(o, oi, es[p].del.start, side, si, es[p].ins.start)
    requires var to := SideEnd(es, p + 1, n, es[p].del.end, es[p].ins.end, end);
             Script(o, side, Window(es[p].del.end, end, es[p].ins.end, to), es[p + 1..n])
    ensures SideEnd(es, p, n, oi, si, end) == SideEnd(es, p + 1, n, es[p].del.end, es[p].ins.end, end)
    ensures Script(o, side, Window(oi, end, si, SideEnd(es, p, n, oi, si, end)), es[p..n])
  {
    assert es[p..n][1..] == es[p + 1..n];
    hide SameRun;
  }

  /** The region at the cursor. */
  function Next<T>(j: Job<T>, c: Cursor): Region
    requires c.pa <= |j.ea| && c.pb <= |j.eb| && c.oi <= |j.o| && BothClosed(j, c, |j.o|)
  {
    if Diverges(j, c) then
      var end := LeastClosed(j, c, c.oi);
      var na, nb := Past(j.ea, c.pa, end), Past(j.eb, c.pb, end);
      Region(Range(c.oi, end), To(c.ai, SideEnd(j.ea, c.pa, na, c.oi, c.ai, end)),
             To(c.bi, SideEnd(j.eb, c.pb, nb, c.oi, c.bi, end)), Range(c.pa, na), Range(c.pb, nb))
    else
      Region(Range(c.oi, c.oi + 1), Range(c.ai, c.ai + 1), Range(c.bi, c.bi + 1), Range(c.pa, c.pa), Range(c.pb, c.pb))
  }

  function To(start: nat, end: int): Range {
    Range(start, if end < 0 then 0 else end)
  }

  /** The region starts at the cursor and leaves the sequences aligned behind it. */
  ghost predicate Advances<T>(j: Job<T>, c: Cursor, r: Region) {
    && r.o.start == c.oi && r.a.start == c.ai && r.b.start == c.bi && r.ea.start == c.pa && r.eb.start == c.pb
    && c.oi <= r.o.end <= |j.o| && c.ai <= r.a.end <= |j.a| && c.bi <= r.b.end <= |j.b|
    && c.pa <= r.ea.end <= |j.ea| && c.pb <= r.eb.end <= |j.eb|
    && Synced(j, r.After())
  }

  /** The walk never leaves the sequences, stays aligned, and makes progress. */
  lemma NextAdvances<T>(j: Job<T>, c: Cursor)
    requires Synced(j, c) && !Finished(j, c)
    ensures BothClosed(j, c, |j.o|)
    ensures Advances(j, c, Next(j, c))
    ensures Left(j, Next(j, c).After()) < Left(j, c)
  {
    hide Script;
    SyncedIsBounded(j, c);
    var end := if Diverges(j, c) then LeastClosed(j, c, c.oi) else c.oi + 1;
    if !Diverges(j, c) {
      AlignedEdits(j.o, j.a, j.ea, c.oi, c.ai, c.pa);
      AlignedEdits(j.o, j.b, j.eb, c.oi, c.bi, c.pb);
      AlignedInGap(j.o, j.a, j.ea, c.oi, c.ai, c.pa, end);
      AlignedInGap(j.o, j.b, j.eb, c.oi, c.bi, c.pb, end);
    } else {
      AlignedAfter(j.o, j.a, j.ea, c.oi, c.ai, c.pa, end);
      AlignedAfter(j.o, j.b, j.eb, c.oi, c.bi, c.pb, end);
    }
  }

  /** How much of the base and of the scripts is left. */
  function Left<T>(j: Job<T>, c: Cursor): nat {
    (if c.oi < |j.o| then |j.o| - c.oi else 0)
    + (if c.pa < |j.ea| then |j.ea| - c.pa else 0)
    + (if c.pb < |j.eb| then |j.eb| - c.pb else 0)
  }

  /** The regions from the cursor on. */
  ghost function Regions<T>(j: Job<T>, c: Cursor): seq<Region>
    requires Synced(j, c)
    decreases Left(j, c)
  {
    if Finished(j, c) then []
    else
      NextAdvances(j, c);
      [Next(j, c)] + Regions(j, Next(j, c).After())
  }

  lemma StartIsSynced<T>(j: Job<T>)
    requires j.Valid()
    ensures Synced(j, START)
  {
    assert j.ea[0..] == j.ea && j.eb[0..] == j.eb;
  }

  ghost function AllRegions<T>(j: Job<T>): seq<Region>
    requires j.Valid()
  {
    StartIsSynced(j);
    Regions(j, START)
  }

  // ---- what the regions are ----

  datatype Side = Base | Ours | Theirs

  function Pick(r: Region, s: Side): Range {
    match s case Base => r.o case Ours => r.a case Theirs => r.b
  }

  /** The pieces of one sequence, one after the other. */
  function Pieces<T>(s: seq<T>, rs: seq<Region>, which: Side): seq<T> {
    if rs == [] then [] else Slice(s, Pick(rs[0], which)) + Pieces(s, rs[1..], which)
  }

  /** When the walk is over, nothing is left of either side. */
  lemma FinishedIsAtEnd<T>(o: seq<T>, side: seq<T>, es: seq<Edit>, oi: nat, si: nat, p: nat)
    requires Aligned(o, side, es, oi, si, p) && !Here(es, p, oi) && oi == |o|
    ensures si == |side|
  {
    AlignedEdits(o, side, es, oi, si, p);
    assert es[p..] == [];
    SameRunLength(o, oi, |o|, side, si, |side|);
  }

  lemma {:induction false} RegionsPartition<T>(j: Job<T>, c: Cursor)
    requires Synced(j, c)
    ensures Pieces(j.o, Regions(j, c), Base) == j.o[c.oi..]
    ensures Pieces(j.a, Regions(j, c), Ours) == j.a[c.ai..]
    ensures Pieces(j.b, Regions(j, c), Theirs) == j.b[c.bi..]
    decreases Left(j, c)
  {
    if Finished(j, c) {
      FinishedIsAtEnd(j.o, j.a, j.ea, c.oi, c.ai, c.pa);
      FinishedIsAtEnd(j.o, j.b, j.eb, c.oi, c.bi, c.pb);
    } else {
      NextAdvances(j, c);
      var r, rest := Next(j, c), Regions(j, Next(j, c).After());
      RegionsPartition(j, r.After());
      assert Regions(j, c) == [r] + rest && ([r] + rest)[1..] == rest;
      hide Regions;
      PiecesCons(j.o, r, rest, Base);
      PiecesCons(j.a, r, rest, Ours);
      PiecesCons(j.b, r, rest, Theirs);
    }
  }

  lemma PiecesCons<T>(s: seq<T>, r: Region, rest: seq<Region>, which: Side)
    requires Pick(r, which).start <= Pick(r, which).end <= |s|
    requires Pieces(s, rest, which) == s[Pick(r, which).end..]
    ensures Pieces(s, [r] + rest, which) == s[Pick(r, which).start..]
  {
    var p := Pick(r, which);
    assert s[p.start..] == s[p.start..p.end] + s[p.end..];
    assert ([r] + rest)[1..] == rest;
  }

  /** The regions cut base, ours and theirs into consecutive pieces that miss nothing. */
  lemma RegionsCoverAll<T>(j: Job<T>)
    requires j.Valid()
    ensures Pieces(j.o, AllRegions(j), Base) == j.o
    ensures Pieces(j.a, AllRegions(j), Ours) == j.a
    ensures Pieces(j.b, AllRegions(j), Theirs) == j.b
  {
    StartIsSynced(j);
    RegionsPartition(j, START);
  }

  /** One side of a region: its edits lie inside it and rewrite its base piece into its side piece. */
  ghost predicate GoodSide<T>(o: seq<T>, side: seq<T>, es: seq<Edit>, ro: Range, rs: Range, re: Range) {
    && ro.start <= ro.end <= |o| && rs.start <= rs.end <= |side| && re.start <= re.end <= |es|
    && Script(o, side, Window(ro.start, ro.end, rs.start, rs.end), es[re.start..re.end])
    && (forall k :: re.start <= k < re.end ==> ro.start <= es[k].del.start <= es[k].del.end <= ro.end)
  }

  /** What a region is, without the walk: on each side, the base piece rewritten by the edits
      of that side that lie inside; without any edits, a single line. */
  ghost predicate GoodRegion<T>(j: Job<T>, r: Region) {
    && GoodSide(j.o, j.a, j.ea, r.o, r.a, r.ea)
    && GoodSide(j.o, j.b, j.eb, r.o, r.b, r.eb)
    && (r.ea.IsEmpty() && r.eb.IsEmpty() ==> r.o.end == r.o.start + 1)
  }

  /** A side without edits in a region is the base there. */
  lemma UneditedSideIsBase<T>(o: seq<T>, side: seq<T>, es: seq<Edit>, ro: Range, rs: Range, re: Range)
    requires GoodSide(o, side, es, ro, rs, re) && re.IsEmpty()
    ensures Slice(side, rs) == Slice(o, ro)
  {
    assert es[re.start..re.end] == [];
  }

  lemma SideIsGood<T>(o: seq<T>, side: seq<T>, es: seq<Edit>, oi: nat, si: nat, p: nat, end: nat)
    requires Aligned(o, side, es, oi, si, p) && oi <= end <= |o| && Closed(es, p, end)
    ensures var n := Past(es, p, end);
            GoodSide(o, side, es, Range(oi, end), To(si, SideEnd(es, p, n, oi, si, end)), Range(p, n))
  {
    AlignedAfter(o, side, es, oi, si, p, end);
    AlignedEdits(o, side, es, oi, si, p);
  }

  lemma NextIsGood<T>(j: Job<T>, c: Cursor)
    requires Synced(j, c) && !Finished(j, c) && BothClosed(j, c, |j.o|)
    ensures GoodRegion(j, Next(j, c))
  {
    var r := Next(j, c);
    if Diverges(j, c) {
      SideIsGood(j.o, j.a, j.ea, c.oi, c.ai, c.pa, r.o.end);
      SideIsGood(j.o, j.b, j.eb, c.oi, c.bi, c.pb, r.o.end);
    } else {
      AlignedEdits(j.o, j.a, j.ea, c.oi, c.ai, c.pa);
      AlignedEdits(j.o, j.b, j.eb, c.oi, c.bi, c.pb);
      AlignedInGap(j.o, j.a, j.ea, c.oi, c.ai, c.pa, c.oi + 1);
      AlignedInGap(j.o, j.b, j.eb, c.oi, c.bi, c.pb, c.oi + 1);
      assert j.ea[c.pa..c.pa] == [] && j.eb[c.pb..c.pb] == [];
    }
  }

  /** All regions of a merge are good. */
  lemma {:induction false} RegionsAreGood<T>(j: Job<T>, c: Cursor)
    requires Synced(j, c)
    ensures forall r :: r in Regions(j, c) ==> GoodRegion(j, r)
    decreases Left(j, c)
  {
    if !Finished(j, c) {
      NextAdvances(j, c);
      NextIsGood(j, c);
      RegionsAreGood(j, Next(j, c).After());
    }
  }

  /** A divergent region ends at the least bound that no edit of either script crosses: the
      bound depends on the edits alone, not on which side the growth looks at first. */
  lemma DivergentRegionIsLeast<T>(j: Job<T>, c: Cursor)
    requires Synced(j, c) && Diverges(j, c)
    ensures BothClosed(j, c, |j.o|)
    ensures var r := Next(j, c);
            && BothClosed(j, c, r.o.end)
            && (forall d :: c.oi <= d && BothClosed(j, c, d) ==> r.o.end <= d)
            && (r.ea.start < r.ea.end || r.eb.start < r.eb.end)
  {
    SyncedIsBounded(j, c);
  }

  // ---- swapping the sides ----

  function SwapAll(rs: seq<Region>): (ss: seq<Region>)
    ensures |ss| == |rs|
  {
    if rs == [] then [] else [rs[0].Swap()] + SwapAll(rs[1..])
  }

  lemma {:induction false} LeastClosedSwaps<T>(j: Job<T>, c: Cursor, end: nat)
    requires end <= |j.o| && BothClosed(j, c, |j.o|)
    ensures LeastClosed(j.Swap(), c.Swap(), end) == LeastClosed(j, c, end)
    decreases |j.o| - end
  {
    if !BothClosed(j, c, end) {
      LeastClosedSwaps(j, c, end + 1);
    }
  }

  /** Swapping ours and theirs swaps every region and changes nothing else. */
  lemma {:induction false} RegionsSwap<T>(j: Job<T>, c: Cursor)
    requires Synced(j, c)
    ensures Synced(j.Swap(), c.Swap())
    ensures Regions(j.Swap(), c.Swap()) == SwapAll(Regions(j, c))
    decreases Left(j, c)
  {
    if !Finished(j, c) {
      NextAdvances(j, c);
      LeastClosedSwaps(j, c, c.oi);
      assert Next(j.Swap(), c.Swap()) == Next(j, c).Swap();
      RegionsSwap(j, Next(j, c).After());
      assert Regions(j, c)[1..] == Regions(j, Next(j, c).After());
    }
  }
}
