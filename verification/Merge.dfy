/** The three-way merge (crates/alt-merge/src/lib.rs). */
module Merge {
  import opened EditScript
  import opened Octets
  import opened Lines
  import opened LineDiff
  import opened MergeRegions
  import opened Slide
  import opened Histogram

  datatype Labels = Labels(ours: Bytes, theirs: Bytes)

  /** The merged text and the number of conflict regions. */
  datatype Merged = Merged(content: Bytes, conflicts: nat) {
    predicate IsClean() {
      conflicts == 0
    }
  }

  type LineJob = Job<Line>

  // ---- what is emitted for a region ----

  /** The diff3 rule. */
  datatype Resolution = Take(lines: seq<Line>) | Conflict

  function Resolve(base: seq<Line>, ours: seq<Line>, theirs: seq<Line>): Resolution {
    if ours == base then Take(theirs)
    else if theirs == base then Take(ours)
    else if ours == theirs then Take(ours)
    else Conflict
  }

  const OPEN: Bytes := [60, 60, 60, 60, 60, 60, 60, 32]
  const MIDDLE: Bytes := [61, 61, 61, 61, 61, 61, 61, 10]
  const CLOSE: Bytes := [62, 62, 62, 62, 62, 62, 62, 32]

  /** The lines, each with a newline at its end. */
  function WithNewlines(lines: seq<Line>): Bytes {
    if lines == [] then []
    else
      var l := lines[|lines| - 1];
      WithNewlines(lines[..|lines| - 1]) + l + if EndsWithNewline(l) then [] else [NEWLINE]
  }

  function OnOwnLine(out: Bytes): Bytes {
    if out == [] || EndsWithNewline(out) then out else out + [NEWLINE]
  }

  function ConflictText(ours: seq<Line>, theirs: seq<Line>, labels: Labels): Bytes {
    OPEN + labels.ours + [NEWLINE] + WithNewlines(ours) + MIDDLE + WithNewlines(theirs) + CLOSE + labels.theirs + [NEWLINE]
  }

  function Emit(m: Merged, base: seq<Line>, ours: seq<Line>, theirs: seq<Line>, labels: Labels): Merged {
    match Resolve(base, ours, theirs)
    case Take(lines) => Merged(m.content + Concat(lines), m.conflicts)
    case Conflict => Merged(OnOwnLine(m.content) + ConflictText(ours, theirs, labels), m.conflicts + 1)
  }

  function EmitRegion(m: Merged, j: LineJob, r: Region, labels: Labels): Merged {
    Emit(m, Slice(j.o, r.o), Slice(j.a, r.a), Slice(j.b, r.b), labels)
  }

  function EmitAll(m: Merged, j: LineJob, rs: seq<Region>, labels: Labels): Merged
    decreases |rs|
  {
    if rs == [] then m else EmitAll(EmitRegion(m, j, rs[0], labels), j, rs[1..], labels)
  }

  const NOTHING := Merged([], 0)

  /** The merge of two scripts, as a function. */
  ghost function MergeOf(j: LineJob, labels: Labels): Merged
    requires j.Valid()
  {
    EmitAll(NOTHING, j, AllRegions(j), labels)
  }

  // ---- theorems about the merge of two scripts ----

  ghost predicate InConflict(j: LineJob, r: Region) {
    Resolve(Slice(j.o, r.o), Slice(j.a, r.a), Slice(j.b, r.b)) == Conflict
  }

  /** A region in conflict holds at least one edit of each script, and all three pieces differ. */
  lemma ConflictNeedsBothSides(j: LineJob, r: Region)
    requires j.Valid() && r in AllRegions(j) && InConflict(j, r)
    ensures r.ea.start < r.ea.end && r.eb.start < r.eb.end
    ensures Slice(j.a, r.a) != Slice(j.o, r.o) && Slice(j.b, r.b) != Slice(j.o, r.o)
    ensures Slice(j.a, r.a) != Slice(j.b, r.b)
  {
    StartIsSynced(j);
    RegionsAreGood(j, START);
    if r.ea.IsEmpty() {
      UneditedSideIsBase(j.o, j.a, j.ea, r.o, r.a, r.ea);
    }
    if r.eb.IsEmpty() {
      UneditedSideIsBase(j.o, j.b, j.eb, r.o, r.b, r.eb);
    }
  }

  /** A region that only one script edits takes that side's piece. */
  lemma OneSidedRegionIsTaken(j: LineJob, r: Region)
    requires j.Valid() && r in AllRegions(j)
    ensures r.eb.IsEmpty() ==> Resolve(Slice(j.o, r.o), Slice(j.a, r.a), Slice(j.b, r.b)) == Take(Slice(j.a, r.a))
    ensures r.ea.IsEmpty() ==> Resolve(Slice(j.o, r.o), Slice(j.a, r.a), Slice(j.b, r.b)) == Take(Slice(j.b, r.b))
  {
    StartIsSynced(j);
    RegionsAreGood(j, START);
    if r.ea.IsEmpty() {
      UneditedSideIsBase(j.o, j.a, j.ea, r.o, r.a, r.ea);
    }
    if r.eb.IsEmpty() {
      UneditedSideIsBase(j.o, j.b, j.eb, r.o, r.b, r.eb);
    }
  }

  /** The number of conflicts is the number of regions in conflict. */
  ghost function ConflictCount(j: LineJob, rs: seq<Region>): nat {
    if rs == [] then 0 else (if InConflict(j, rs[0]) then 1 else 0) + ConflictCount(j, rs[1..])
  }

  lemma {:induction false} EmitCountsConflicts(m: Merged, j: LineJob, rs: seq<Region>, labels: Labels)
    ensures EmitAll(m, j, rs, labels).conflicts == m.conflicts + ConflictCount(j, rs)
    decreases |rs|
  {
    if rs != [] {
      EmitCountsConflicts(EmitRegion(m, j, rs[0], labels), j, rs[1..], labels);
    }
  }

  /** What a clean list of regions emits: the piece that each region resolves to. */
  ghost function Chosen(j: LineJob, rs: seq<Region>): seq<Line>
    requires ConflictCount(j, rs) == 0
  {
    if rs == [] then []
    else Resolve(Slice(j.o, rs[0].o), Slice(j.a, rs[0].a), Slice(j.b, rs[0].b)).lines + Chosen(j, rs[1..])
  }

  lemma {:induction false} CleanEmitsChosen(m: Merged, j: LineJob, rs: seq<Region>, labels: Labels)
    requires ConflictCount(j, rs) == 0
    ensures EmitAll(m, j, rs, labels) == Merged(m.content + Concat(Chosen(j, rs)), m.conflicts)
    decreases |rs|
  {
    if rs != [] {
      hide Concat, Slice;
      var lines := Resolve(Slice(j.o, rs[0].o), Slice(j.a, rs[0].a), Slice(j.b, rs[0].b)).lines;
      CleanEmitsChosen(EmitRegion(m, j, rs[0], labels), j, rs[1..], labels);
      ConcatSplits(lines, Chosen(j, rs[1..]));
      Associate(m.content, Concat(lines), Concat(Chosen(j, rs[1..])));
    }
  }

  lemma Associate(x: Bytes, y: Bytes, z: Bytes)
    ensures (x + y) + z == x + (y + z)
  {
  }

  lemma {:induction false} SwapKeepsChoices(j: LineJob, rs: seq<Region>)
    ensures ConflictCount(j.Swap(), SwapAll(rs)) == ConflictCount(j, rs)
    ensures ConflictCount(j, rs) == 0 ==> Chosen(j.Swap(), SwapAll(rs)) == Chosen(j, rs)
    decreases |rs|
  {
    if rs != [] {
      SwapKeepsChoices(j, rs[1..]);
      assert SwapAll(rs)[1..] == SwapAll(rs[1..]);
    }
  }

  /** Swapping ours and theirs keeps the number of conflicts and, when clean, the content. */
  lemma MergeIsSymmetric(j: LineJob, labels: Labels)
    requires j.Valid()
    ensures MergeOf(j.Swap(), labels).conflicts == MergeOf(j, labels).conflicts
    ensures MergeOf(j, labels).IsClean() ==> MergeOf(j.Swap(), labels) == MergeOf(j, labels)
  {
    StartIsSynced(j);
    RegionsSwap(j, START);
    var rs := AllRegions(j);
    SwapKeepsChoices(j, rs);
    EmitCountsConflicts(NOTHING, j, rs, labels);
    EmitCountsConflicts(NOTHING, j.Swap(), SwapAll(rs), labels);
    if MergeOf(j, labels).IsClean() {
      CleanEmitsChosen(NOTHING, j, rs, labels);
      CleanEmitsChosen(NOTHING, j.Swap(), SwapAll(rs), labels);
    }
  }

  /** If every region resolves to ours, the merge is clean and is ours. */
  lemma {:induction false} AllOurs(j: LineJob, rs: seq<Region>)
    requires forall r :: r in rs ==>
               Resolve(Slice(j.o, r.o), Slice(j.a, r.a), Slice(j.b, r.b)) == Take(Slice(j.a, r.a))
    ensures ConflictCount(j, rs) == 0 && Chosen(j, rs) == Pieces(j.a, rs, Ours)
    decreases |rs|
  {
    if rs != [] {
      AllOurs(j, rs[1..]);
    }
  }

  lemma OursEverywhere(j: LineJob, labels: Labels)
    requires j.Valid()
    requires forall r :: r in AllRegions(j) ==>
               Resolve(Slice(j.o, r.o), Slice(j.a, r.a), Slice(j.b, r.b)) == Take(Slice(j.a, r.a))
    ensures MergeOf(j, labels) == Merged(Concat(j.a), 0)
  {
    AllOurs(j, AllRegions(j));
    CleanEmitsChosen(NOTHING, j, AllRegions(j), labels);
    RegionsCoverAll(j);
    hide EmitAll, AllRegions, Concat, Pieces, Chosen, ConflictCount;
    assert NOTHING.content + Concat(j.a) == Concat(j.a);
  }

  /** If theirs has no edits the merge is ours. */
  lemma MergeWithUnchanged(j: LineJob, labels: Labels)
    requires j.Valid() && j.eb == []
    ensures MergeOf(j, labels) == Merged(Concat(j.a), 0)
  {
    StartIsSynced(j);
    RegionsAreGood(j, START);
    forall r | r in AllRegions(j)
      ensures Resolve(Slice(j.o, r.o), Slice(j.a, r.a), Slice(j.b, r.b)) == Take(Slice(j.a, r.a))
    {
      OneSidedRegionIsTaken(j, r);
    }
    OursEverywhere(j, labels);
  }

  /** In lockstep, the two sides of a region are the same. */
  lemma {:induction false} SameSidesSameRegions(j: LineJob, c: Cursor)
    requires Synced(j, c) && j.a == j.b && j.ea == j.eb && c.ai == c.bi && c.pa == c.pb
    ensures forall r :: r in Regions(j, c) ==> r.a == r.b
    decreases Left(j, c)
  {
    if !Finished(j, c) {
      NextAdvances(j, c);
      SameSidesSameRegions(j, Next(j, c).After());
    }
  }

  /** The same script on both sides merges to that side. */
  lemma MergeOfSameChange(j: LineJob, labels: Labels)
    requires j.Valid() && j.a == j.b && j.ea == j.eb
    ensures MergeOf(j, labels) == Merged(Concat(j.a), 0)
  {
    StartIsSynced(j);
    SameSidesSameRegions(j, START);
    OursEverywhere(j, labels);
  }

  // ---- theorems about the merge of three buffers ----

  /** The job that `merge` builds from three buffers: both diffs, slid down. */
  ghost function JobOf(base: Bytes, ours: Bytes, theirs: Bytes): LineJob {
    var o, a, b := LinesOf(base), LinesOf(ours), LinesOf(theirs);
    Job(o, a, b, SlidScript(o, a, LineScript(o, a)), SlidScript(o, b, LineScript(o, b)))
  }

  lemma JobIsValid(base: Bytes, ours: Bytes, theirs: Bytes)
    ensures JobOf(base, ours, theirs).Valid()
  {
    var o, a, b := LinesOf(base), LinesOf(ours), LinesOf(theirs);
    LineScriptIsGood(o, a);
    LineScriptIsGood(o, b);
    SlideKeepsScript(o, a, Whole(o, a), LineScript(o, a));
    SlideKeepsScript(o, b, Whole(o, b), LineScript(o, b));
  }

  /** The three-way merge of three buffers, as a function. */
  ghost function ThreeWay(base: Bytes, ours: Bytes, theirs: Bytes, labels: Labels): Merged {
    JobIsValid(base, ours, theirs);
    MergeOf(JobOf(base, ours, theirs), labels)
  }

  /** For all buffers: a change of one side only is taken as it is, the same change on both
      sides is taken once, and none of these ever conflicts. */
  lemma MergeIdentities(base: Bytes, x: Bytes, labels: Labels)
    ensures ThreeWay(base, x, base, labels) == Merged(x, 0)
    ensures ThreeWay(base, base, x, labels) == Merged(x, 0)
    ensures ThreeWay(base, x, x, labels) == Merged(x, 0)
  {
    JobIsValid(base, x, base);
    JobIsValid(base, x, x);
    HistOfEqual(LinesOf(base));
    LinesOfAreLines(x);
    MergeWithUnchanged(JobOf(base, x, base), labels);
    MergeIsSymmetric(JobOf(base, x, base), labels);
    assert JobOf(base, x, base).Swap() == JobOf(base, base, x);
    MergeOfSameChange(JobOf(base, x, x), labels);
  }

  /** For all buffers: swapping ours and theirs keeps the number of conflicts and, when the
      merge is clean, its content. */
  lemma ThreeWayIsSymmetric(base: Bytes, ours: Bytes, theirs: Bytes, labels: Labels)
    ensures ThreeWay(base, theirs, ours, labels).conflicts == ThreeWay(base, ours, theirs, labels).conflicts
    ensures ThreeWay(base, ours, theirs, labels).IsClean() ==>
              ThreeWay(base, theirs, ours, labels) == ThreeWay(base, ours, theirs, labels)
  {
    JobIsValid(base, ours, theirs);
    MergeIsSymmetric(JobOf(base, ours, theirs), labels);
    assert JobOf(base, ours, theirs).Swap() == JobOf(base, theirs, ours);
  }

  /** One insertion or one deletion that the two diffs placed differently is applied once. */
  lemma SingleChangeIsAppliedOnce(o: seq<Line>, side: seq<Line>, e: Edit, f: Edit, labels: Labels)
    requires SingleChange(o, side, e) && SingleChange(o, side, f)
    ensures var j := Job(o, side, side, SlidScript(o, side, [e]), SlidScript(o, side, [f]));
            j.Valid() && MergeOf(j, labels) == Merged(Concat(side), 0)
  {
    SingleChangeIsCanonical(o, side, e, f);
    SlideKeepsScript(o, side, Whole(o, side), [e]);
    MergeOfSameChange(Job(o, side, side, SlidScript(o, side, [e]), SlidScript(o, side, [f])), labels);
  }

  // ---- the algorithm ----

  lemma {:induction false} ConcatSnoc(lines: seq<Line>, i: nat)
    requires i < |lines|
    ensures Concat(lines[..i + 1]) == Concat(lines[..i]) + lines[i]
  {
    assert lines[..i + 1][..i] == lines[..i];
  }

  method PushLines(out0: Bytes, lines: seq<Line>) returns (out: Bytes)
    ensures out == out0 + Concat(lines)
  {
    out := out0;
    for i := 0 to |lines|
      invariant out == out0 + Concat(lines[..i])
    {
      ConcatSnoc(lines, i);
      out := out + lines[i];
    }
    assert lines[..|lines|] == lines;
  }

  method PushLinesNl(out0: Bytes, lines: seq<Line>) returns (out: Bytes)
    ensures out == out0 + WithNewlines(lines)
  {
    out := out0;
    for i := 0 to |lines|
      invariant out == out0 + WithNewlines(lines[..i])
    {
      assert lines[..i + 1][..i] == lines[..i];
      out := out + lines[i];
      if !EndsWithNewline(lines[i]) {
        out := out + [NEWLINE];
      }
    }
    assert lines[..|lines|] == lines;
  }

  /** The net line-count change of the edits `es[p..n]`. */
  function Delta(es: seq<Edit>, p: nat, n: nat): int
    requires p <= n <= |es|
  {
    if p == n then 0
    else Delta(es, p, n - 1) + (es[n - 1].ins.end - es[n - 1].ins.start) - (es[n - 1].del.end - es[n - 1].del.start)
  }

  method NetChange(es: seq<Edit>, p: nat, n: nat) returns (delta: int)
    requires p <= n <= |es|
    ensures delta == Delta(es, p, n)
  {
    delta := 0;
    for k := p to n
      invariant delta == Delta(es, p, k)
    {
      delta := delta + (es[k].ins.end - es[k].ins.start) - (es[k].del.end - es[k].del.start);
    }
  }

  /** Signed line counts land where the script does. */
  lemma {:induction false} DeltaLands(o: seq<Line>, side: seq<Line>, es: seq<Edit>, oi: nat, si: nat, p: nat, n: nat, end: nat)
    requires Aligned(o, side, es, oi, si, p) && p <= n <= |es|
    ensures si + (end - oi) + Delta(es, p, n) == SideEnd(es, p, n, oi, si, end)
    decreases n
  {
    if p < n {
      DeltaLands(o, side, es, oi, si, p, n - 1, es[n - 1].del.start);
      EditsInStep(o, side, es, oi, si, p, n - 1);
    }
  }

  /** In front of every edit, the side is as far behind the previous edit as the base is. */
  lemma {:induction false} EditsInStep(o: seq<Line>, side: seq<Line>, es: seq<Edit>, oi: nat, si: nat, p: nat, k: nat)
    requires Aligned(o, side, es, oi, si, p) && p <= k < |es|
    ensures es[k].ins.start == SideEnd(es, p, k, oi, si, es[k].del.start)
    decreases k - p
  {
    var e := es[p];
    SameRunLength(o, oi, e.del.start, side, si, e.ins.start);
    if p < k {
      assert es[p..][1..] == es[p + 1..];
      EditsInStep(o, side, es, e.del.end, e.ins.end, p + 1, k);
    }
  }

  /** Grows the region at the cursor to its end, chaining edits of either side. */
  method GrowRegion(j: LineJob, c: Cursor) returns (end: nat, na: nat, nb: nat)
    requires Synced(j, c) && BothClosed(j, c, |j.o|)
    ensures end == LeastClosed(j, c, c.oi)
    ensures na == Past(j.ea, c.pa, end) && nb == Past(j.eb, c.pb, end)
  {
    AlignedEdits(j.o, j.a, j.ea, c.oi, c.ai, c.pa);
    AlignedEdits(j.o, j.b, j.eb, c.oi, c.bi, c.pb);
    ghost var least := LeastClosed(j, c, c.oi);
    end, na, nb := c.oi, c.pa, c.pb;
    assert Taken(j.ea, c.pa, na, end) && Taken(j.eb, c.pb, nb, end);
    hide Script, LeastClosed, Past, Taken, Closed, Synced;
    var grew := true;
    while grew
      invariant c.oi <= end <= least && c.pa <= na <= |j.ea| && c.pb <= nb <= |j.eb|
      invariant Taken(j.ea, c.pa, na, end) && Taken(j.eb, c.pb, nb, end)
      invariant !grew ==> (na < |j.ea| ==> j.ea[na].del.start > end) && (nb < |j.eb| ==> j.eb[nb].del.start > end)
      decreases |j.ea| - na + |j.eb| - nb, grew
    {
      var na', nb';
      end, na' := TakeTouching(j.ea, c.pa, na, end, least);
      end, nb' := TakeTouching(j.eb, c.pb, nb, end, least);
      grew := na' != na || nb' != nb;
      na, nb := na', nb';
    }
    TakenIsPast(j.ea, c.pa, na, end);
    TakenIsPast(j.eb, c.pb, nb, end);
    assert BothClosed(j, c, end);
  }

  /** The edits `es[p..n]` start and end at or before `end`. */
  ghost predicate Taken(es: seq<Edit>, p: nat, n: nat, end: nat) {
    p <= n <= |es| && forall k :: p <= k < n ==> es[k].del.start <= end && es[k].del.end <= end
  }

  /** Takes every further edit that touches the running end. */
  method TakeTouching(es: seq<Edit>, ghost p: nat, n0: nat, end0: nat, ghost least: nat) returns (end: nat, n: nat)
    requires Taken(es, p, n0, end0) && end0 <= least && Closed(es, p, least)
    ensures n0 <= n && end0 <= end <= least && Taken(es, p, n, end)
    ensures n < |es| ==> es[n].del.start > end
    ensures n == n0 ==> end == end0
  {
    end, n := end0, n0;
    while n < |es| && es[n].del.start <= end
      invariant n0 <= n <= |es| && end0 <= end <= least && Taken(es, p, n, end)
      invariant n == n0 ==> end == end0
    {
      end := if end < es[n].del.end then es[n].del.end else end;
      n := n + 1;
    }
  }

  lemma {:induction false} TakenIsPast(es: seq<Edit>, p: nat, n: nat, end: nat)
    requires Taken(es, p, n, end) && (n < |es| ==> es[n].del.start > end)
    requires forall k, m :: p <= k < m < |es| ==> es[k].del.end <= es[m].del.start
    requires forall k :: p <= k < |es| ==> es[k].del.start <= es[k].del.end
    ensures n == Past(es, p, end) && Closed(es, p, end)
    decreases n - p
  {
    if p < n {
      TakenIsPast(es, p + 1, n, end);
    }
  }

  /** Emits the divergent region at the cursor and steps behind it. */
  method MergeRegion(j: LineJob, c: Cursor, m: Merged, labels: Labels) returns (m': Merged, c': Cursor)
    requires Synced(j, c) && Diverges(j, c) && BothClosed(j, c, |j.o|)
    ensures c' == Next(j, c).After() && m' == EmitRegion(m, j, Next(j, c), labels)
  {
    NextAdvances(j, c);
    var end, na, nb := GrowRegion(j, c);
    var deltaA := NetChange(j.ea, c.pa, na);
    var deltaB := NetChange(j.eb, c.pb, nb);
    DeltaLands(j.o, j.a, j.ea, c.oi, c.ai, c.pa, na, end);
    DeltaLands(j.o, j.b, j.eb, c.oi, c.bi, c.pb, nb, end);
    hide Script, Emit;
    var span := end - c.oi;
    var aEnd, bEnd := c.ai + span + deltaA, c.bi + span + deltaB;
    c' := Cursor(end, aEnd, bEnd, na, nb);
    m' := EmitSlices(m, j.o[c.oi..end], j.a[c.ai..aEnd], j.b[c.bi..bEnd], labels);
  }

  /** Puts out region after region until the base and both scripts are used up. */
  method MergeEdits(j: LineJob, labels: Labels) returns (m: Merged)
    requires j.Valid()
    ensures m == MergeOf(j, labels)
  {
    StartIsSynced(j);
    var c := START;
    m := NOTHING;
    while Diverges(j, c) || c.oi < |j.o|
      invariant Synced(j, c)
      invariant EmitAll(m, j, Regions(j, c), labels) == MergeOf(j, labels)
      decreases Left(j, c)
    {
      NextAdvances(j, c);
      NextIsGood(j, c);
      RegionsStep(j, c, m, labels);
      if !Diverges(j, c) {
        SharedLine(m, j, Next(j, c), labels);
        m := Merged(m.content + j.o[c.oi], m.conflicts);
        c := Cursor(c.oi + 1, c.ai + 1, c.bi + 1, c.pa, c.pb);
      } else {
        m, c := MergeRegion(j, c, m, labels);
      }
    }
  }

  /** Emitting the region at the cursor first, and the others after it. */
  lemma RegionsStep(j: LineJob, c: Cursor, m: Merged, labels: Labels)
    requires Synced(j, c) && !Finished(j, c)
    ensures BothClosed(j, c, |j.o|) && Synced(j, Next(j, c).After())
    ensures EmitAll(m, j, Regions(j, c), labels)
         == EmitAll(EmitRegion(m, j, Next(j, c), labels), j, Regions(j, Next(j, c).After()), labels)
  {
    NextAdvances(j, c);
    var r, rest := Next(j, c), Regions(j, Next(j, c).After());
    assert Regions(j, c) == [r] + rest && ([r] + rest)[1..] == rest;
  }

  /** A line that all three share is what the diff3 rule emits for it. */
  lemma SharedLine(m: Merged, j: LineJob, r: Region, labels: Labels)
    requires GoodRegion(j, r) && r.ea.IsEmpty() && r.eb.IsEmpty()
    ensures EmitRegion(m, j, r, labels) == Merged(m.content + j.o[r.o.start], m.conflicts)
  {
    UneditedSideIsBase(j.o, j.a, j.ea, r.o, r.a, r.ea);
    UneditedSideIsBase(j.o, j.b, j.eb, r.o, r.b, r.eb);
    ConcatOne(j.o[r.o.start]);
    assert Slice(j.o, r.o) == [j.o[r.o.start]];
  }

  /** Emits one divergent region by the diff3 rule. */
  method EmitSlices(m: Merged, base: seq<Line>, ours: seq<Line>, theirs: seq<Line>, labels: Labels) returns (m': Merged)
    ensures m' == Emit(m, base, ours, theirs, labels)
  {
    hide Concat, ConflictText;
    var out := m.content;
    if ours == base {
      out := PushLines(out, theirs);
    } else if theirs == base {
      out := PushLines(out, ours);
    } else if ours == theirs {
      out := PushLines(out, ours);
    } else {
      out := EmitConflict(out, ours, theirs, labels);
      return Merged(out, m.conflicts + 1);
    }
    m' := Merged(out, m.conflicts);
  }

  method EmitConflict(out0: Bytes, ours: seq<Line>, theirs: seq<Line>, labels: Labels) returns (out: Bytes)
    ensures out == OnOwnLine(out0) + ConflictText(ours, theirs, labels)
  {
    hide WithNewlines;
    out := out0;
    if out != [] && !EndsWithNewline(out) {
      out := out + [NEWLINE];
    }
    out := out + (OPEN + labels.ours + [NEWLINE]);
    out := PushLinesNl(out, ours);
    out := out + MIDDLE;
    out := PushLinesNl(out, theirs);
    out := out + (CLOSE + labels.theirs + [NEWLINE]);
  }

  /** Merges three buffers at line granularity. */
  method MergeBuffers(base: Bytes, ours: Bytes, theirs: Bytes, labels: Labels) returns (m: Merged)
    requires EnoughTokens(LinesOf(base), LinesOf(ours)) && EnoughTokens(LinesOf(base), LinesOf(theirs))
    ensures m == ThreeWay(base, ours, theirs, labels)
  {
    var o := SplitLines(base);
    var a := SplitLines(ours);
    var b := SplitLines(theirs);
    var ea := SlidDiff(o, a);
    var eb := SlidDiff(o, b);
    JobIsValid(base, ours, theirs);
    m := MergeEdits(Job(o, a, b, ea, eb), labels);
  }

  /** The diff of a side, slid down in place. */
  method SlidDiff(o: seq<Line>, side: seq<Line>) returns (script: seq<Edit>)
    requires EnoughTokens(o, side)
    ensures script == SlidScript(o, side, LineScript(o, side))
  {
    var diff := DiffLines(o, side);
    var edits := new Edit[|diff|](i requires 0 <= i < |diff| => diff[i]);
    assert edits[..] == diff;
    LineScriptIsGood(o, side);
    SlideDown(edits, o, side);
    script := edits[..];
  }
}
