/** The histogram diff core (crates/alt-diff/src/histogram.rs).

    `Hist` is the diff as a mathematical function of the two token sequences; the method
    `Diff` is the loop-and-recursion form of the source and is proved to compute it. What
    the diff promises (a valid, separated, tight script; a best anchor) is proved of `Hist`. */
module Histogram {
  import opened EditScript

  /** A token that occurs more often than this in the old window is no anchor. */
  const MAX_CHAIN: nat := 64

  /** A common run `a[aStart..aEnd] == b[bStart..bEnd]` with the rarity of its rarest token. */
  datatype Run = Run(aStart: nat, aEnd: nat, bStart: nat, bEnd: nat, rarity: nat) {
    function Len(): int {
      aEnd - aStart
    }

    predicate Better(than: Run) {
      rarity < than.rarity || (rarity == than.rarity && Len() > than.Len())
    }
  }

  datatype Option<+T> = None | Some(value: T)

  // ---- specification functions ----

  /** How far the two sequences agree going forward from `(i, j)`. */
  function Forward<T(==)>(a: seq<T>, i: nat, ahi: nat, b: seq<T>, j: nat, bhi: nat): (n: nat)
    requires i <= ahi <= |a| && j <= bhi <= |b|
    ensures i + n <= ahi && j + n <= bhi
    decreases ahi - i
  {
    if i < ahi && j < bhi && a[i] == b[j] then 1 + Forward(a, i + 1, ahi, b, j + 1, bhi) else 0
  }

  /** How far the two sequences agree going backward from `(i, j)`. */
  function Backward<T(==)>(a: seq<T>, alo: nat, i: nat, b: seq<T>, blo: nat, j: nat): (n: nat)
    requires alo <= i <= |a| && blo <= j <= |b|
    ensures alo + n <= i && blo + n <= j
    decreases i
  {
    if alo < i && blo < j && a[i - 1] == b[j - 1] then 1 + Backward(a, alo, i - 1, b, blo, j - 1) else 0
  }

  /** The positions of `t` in `a[lo..hi]`, ascending. */
  function Occurrences<T(==)>(a: seq<T>, lo: nat, hi: nat, t: T): (ps: seq<nat>)
    requires lo <= hi <= |a|
    ensures forall k :: 0 <= k < |ps| ==> lo <= ps[k] < hi && a[ps[k]] == t
    decreases hi
  {
    if lo == hi then []
    else Occurrences(a, lo, hi - 1, t) + if a[hi - 1] == t then [hi - 1] else []
  }

  /** How often `t` occurs in the old side of the window. */
  function Frequency<T(==)>(a: seq<T>, w: Window, t: T): nat
    requires w.alo <= w.ahi <= |a|
  {
    |Occurrences(a, w.alo, w.ahi, t)|
  }

  /** The fewest occurrences in the window of any token of `a[s..e]`. */
  function Rarity<T(==)>(a: seq<T>, w: Window, s: nat, e: nat): nat
    requires w.alo <= s < e <= w.ahi <= |a|
    decreases e
  {
    var last := Frequency(a, w, a[e - 1]);
    if s + 1 == e then last
    else
      var r := Rarity(a, w, s, e - 1);
      if last < r then last else r
  }

  /** The common run through the matching pair `(ai, bi)`, grown as far as it goes. */
  function RunThrough<T(==)>(a: seq<T>, b: seq<T>, w: Window, ai: nat, bi: nat): (r: Run)
    requires w.In(a, b) && w.alo <= ai < w.ahi && w.blo <= bi < w.bhi && a[ai] == b[bi]
    ensures w.alo <= r.aStart <= ai < r.aEnd <= w.ahi && w.blo <= r.bStart <= bi < r.bEnd <= w.bhi
  {
    var p := Backward(a, w.alo, ai, b, w.blo, bi);
    var n := Forward(a, ai + 1, w.ahi, b, bi + 1, w.bhi);
    Run(ai - p, ai + 1 + n, bi - p, bi + 1 + n, Rarity(a, w, ai - p, ai + 1 + n))
  }

  /** `(ai, bi)` is a matching pair whose token is rare enough to anchor on. */
  ghost predicate Anchor<T>(a: seq<T>, b: seq<T>, w: Window, ai: nat, bi: nat)
    requires w.In(a, b)
  {
    && w.alo <= ai < w.ahi && w.blo <= bi < w.bhi && a[ai] == b[bi]
    && Frequency(a, w, b[bi]) <= MAX_CHAIN
  }

  /** The runs through the first `k` pairs of `b[bi]`, in the order of the old positions. */
  function RowPrefix<T(==)>(a: seq<T>, b: seq<T>, w: Window, bi: nat, k: nat): (rs: seq<Run>)
    requires w.In(a, b) && w.blo <= bi < w.bhi && k <= Frequency(a, w, b[bi])
    ensures |rs| == k
  {
    if k == 0 then []
    else
      RowPrefix(a, b, w, bi, k - 1) + [RunThrough(a, b, w, Occurrences(a, w.alo, w.ahi, b[bi])[k - 1], bi)]
  }

  function Row<T(==)>(a: seq<T>, b: seq<T>, w: Window, bi: nat): seq<Run>
    requires w.In(a, b) && w.blo <= bi < w.bhi
  {
    var n := Frequency(a, w, b[bi]);
    if n > MAX_CHAIN then [] else RowPrefix(a, b, w, bi, n)
  }

  /** All candidate runs with new position before `bi`, in scan order. */
  function Candidates<T(==)>(a: seq<T>, b: seq<T>, w: Window, bi: nat): seq<Run>
    requires w.In(a, b) && w.blo <= bi <= w.bhi
    decreases bi
  {
    if bi == w.blo then [] else Candidates(a, b, w, bi - 1) + Row(a, b, w, bi - 1)
  }

  /** The best candidate; the first one wins a tie. */
  function Best(cs: seq<Run>): Option<Run> {
    if cs == [] then None else Challenge(Best(cs[..|cs| - 1]), cs[|cs| - 1])
  }

  function Challenge(best: Option<Run>, c: Run): Option<Run> {
    if best == None || c.Better(best.value) then Some(c) else best
  }

  ghost predicate RunInside(r: Run, w: Window) {
    w.alo <= r.aStart < r.aEnd <= w.ahi && w.blo <= r.bStart < r.bEnd <= w.bhi
  }

  function FindLcs<T(==)>(a: seq<T>, b: seq<T>, w: Window): (best: Option<Run>)
    requires w.In(a, b)
    ensures best.Some? ==> RunInside(best.value, w)
  {
    var cs := Candidates(a, b, w, w.bhi);
    BestCandidateInside(a, b, w);
    Best(cs)
  }

  /** The window without its common prefix and suffix. */
  function Strip<T(==)>(a: seq<T>, b: seq<T>, w: Window): (v: Window)
    requires w.In(a, b)
    ensures v.In(a, b) && w.alo <= v.alo && v.ahi <= w.ahi && w.blo <= v.blo && v.bhi <= w.bhi
  {
    var p := Forward(a, w.alo, w.ahi, b, w.blo, w.bhi);
    var s := Backward(a, w.alo + p, w.ahi, b, w.blo + p, w.bhi);
    Window(w.alo + p, w.ahi - s, w.blo + p, w.bhi - s)
  }

  function WholeEdit(w: Window): Edit {
    Edit(Range(w.alo, w.ahi), Range(w.blo, w.bhi))
  }

  /** The histogram diff of a window. */
  function Hist<T(==)>(a: seq<T>, b: seq<T>, w: Window): seq<Edit>
    requires w.In(a, b)
    decreases w.ahi - w.alo
  {
    var v := Strip(a, b, w);
    if v.alo == v.ahi || v.blo == v.bhi then
      if v.alo == v.ahi && v.blo == v.bhi then [] else [WholeEdit(v)]
    else
      match FindLcs(a, b, v)
      case None => [WholeEdit(v)]
      case Some(r) =>
        Hist(a, b, Window(v.alo, r.aStart, v.blo, r.bStart))
        + Hist(a, b, Window(r.aEnd, v.ahi, r.bEnd, v.bhi))
  }

  // ---- runs ----

  /** `Forward` measures an equal run that cannot be continued. */
  lemma {:induction false} ForwardIsMaximalRun<T>(a: seq<T>, i: nat, ahi: nat, b: seq<T>, j: nat, bhi: nat)
    requires i <= ahi <= |a| && j <= bhi <= |b|
    ensures var n := Forward(a, i, ahi, b, j, bhi);
            && SameRun(a, i, i + n, b, j, j + n)
            && (i + n < ahi && j + n < bhi ==> a[i + n] != b[j + n])
    decreases ahi - i
  {
    hide SameRun;
    if i < ahi && j < bhi && a[i] == b[j] {
      ForwardIsMaximalRun(a, i + 1, ahi, b, j + 1, bhi);
      var m := Forward(a, i + 1, ahi, b, j + 1, bhi);
      OnePair(a, i, b, j);
      GlueRuns(a, i, i + 1, i + 1 + m, b, j, j + 1, j + 1 + m);
    } else {
      EmptyRun(a, i, b, j);
    }
  }

  /** `Backward` measures an equal run that cannot be continued. */
  lemma {:induction false} BackwardIsMaximalRun<T>(a: seq<T>, alo: nat, i: nat, b: seq<T>, blo: nat, j: nat)
    requires alo <= i <= |a| && blo <= j <= |b|
    ensures var n := Backward(a, alo, i, b, blo, j);
            && SameRun(a, i - n, i, b, j - n, j)
            && (alo < i - n && blo < j - n ==> a[i - n - 1] != b[j - n - 1])
    decreases i
  {
    hide SameRun;
    if alo < i && blo < j && a[i - 1] == b[j - 1] {
      BackwardIsMaximalRun(a, alo, i - 1, b, blo, j - 1);
      var m := Backward(a, alo, i - 1, b, blo, j - 1);
      OnePair(a, i - 1, b, j - 1);
      GlueRuns(a, i - 1 - m, i - 1, i, b, j - 1 - m, j - 1, j);
    } else {
      EmptyRun(a, i, b, j);
    }
  }

  lemma OnePair<T>(a: seq<T>, i: nat, b: seq<T>, j: nat)
    requires i < |a| && j < |b| && a[i] == b[j]
    ensures SameRun(a, i, i + 1, b, j, j + 1)
  {
    assert a[i..i + 1] == [a[i]] == b[j..j + 1];
  }

  /** The run through a matching pair is equal on both sides and maximal in the window. */
  lemma RunThroughIsMaximal<T>(a: seq<T>, b: seq<T>, w: Window, ai: nat, bi: nat)
    requires w.In(a, b) && w.alo <= ai < w.ahi && w.blo <= bi < w.bhi && a[ai] == b[bi]
    ensures var r := RunThrough(a, b, w, ai, bi);
            && SameRun(a, r.aStart, r.aEnd, b, r.bStart, r.bEnd)
            && (w.alo < r.aStart && w.blo < r.bStart ==> a[r.aStart - 1] != b[r.bStart - 1])
            && (r.aEnd < w.ahi && r.bEnd < w.bhi ==> a[r.aEnd] != b[r.bEnd])
  {
    var r := RunThrough(a, b, w, ai, bi);
    OnePair(a, ai, b, bi);
    hide SameRun, Forward, Backward, Rarity;
    BackwardIsMaximalRun(a, w.alo, ai, b, w.blo, bi);
    ForwardIsMaximalRun(a, ai + 1, w.ahi, b, bi + 1, w.bhi);
    GlueRuns(a, ai, ai + 1, r.aEnd, b, bi, bi + 1, r.bEnd);
    GlueRuns(a, r.aStart, ai, r.aEnd, b, r.bStart, bi, r.bEnd);
  }

  /** Stripping removes equal runs only, and a stripped window differs at both ends. */
  lemma StripRemovesEqualRuns<T>(a: seq<T>, b: seq<T>, w: Window)
    requires w.In(a, b)
    ensures var v := Strip(a, b, w);
            && SameRun(a, w.alo, v.alo, b, w.blo, v.blo) && SameRun(a, v.ahi, w.ahi, b, v.bhi, w.bhi)
            && (v.alo < v.ahi && v.blo < v.bhi ==> a[v.alo] != b[v.blo] && a[v.ahi - 1] != b[v.bhi - 1])
  {
    hide SameRun, Forward, Backward;
    var p := Forward(a, w.alo, w.ahi, b, w.blo, w.bhi);
    ForwardIsMaximalRun(a, w.alo, w.ahi, b, w.blo, w.bhi);
    BackwardIsMaximalRun(a, w.alo + p, w.ahi, b, w.blo + p, w.bhi);
  }

  // ---- what the anchor search promises ----

  /** Every occurrence is listed, in ascending order. */
  lemma {:induction false} OccurrencesComplete<T>(a: seq<T>, lo: nat, hi: nat, t: T)
    requires lo <= hi <= |a|
    ensures forall i :: lo <= i < hi && a[i] == t ==> i in Occurrences(a, lo, hi, t)
    ensures forall k, m :: 0 <= k < m < |Occurrences(a, lo, hi, t)| ==>
              Occurrences(a, lo, hi, t)[k] < Occurrences(a, lo, hi, t)[m]
    decreases hi
  {
    if lo < hi {
      OccurrencesComplete(a, lo, hi - 1, t);
    }
  }

  /** `Rarity` is the least frequency of a token of the run. */
  lemma {:induction false} RarityIsLeast<T>(a: seq<T>, w: Window, s: nat, e: nat)
    requires w.alo <= s < e <= w.ahi <= |a|
    ensures forall k :: s <= k < e ==> Rarity(a, w, s, e) <= Frequency(a, w, a[k])
    ensures exists k :: s <= k < e && Rarity(a, w, s, e) == Frequency(a, w, a[k])
    decreases e
  {
    if s + 1 == e {
      assert Rarity(a, w, s, e) == Frequency(a, w, a[s]);
    } else {
      RarityIsLeast(a, w, s, e - 1);
      if Rarity(a, w, s, e) == Rarity(a, w, s, e - 1) {
        var k :| s <= k < e - 1 && Rarity(a, w, s, e - 1) == Frequency(a, w, a[k]);
        assert Rarity(a, w, s, e) == Frequency(a, w, a[k]);
      } else {
        assert Rarity(a, w, s, e) == Frequency(a, w, a[e - 1]);
      }
    }
  }

  /** `c` beats or equals all of `cs`, and beats the ones before position `k`. */
  ghost predicate FirstOptimum(cs: seq<Run>, k: nat) {
    && k < |cs|
    && (forall c :: c in cs ==> !c.Better(cs[k]))
    && (forall c :: c in cs[..k] ==> cs[k].Better(c))
  }

  /** The winner is the first of the candidates that no candidate beats. */
  lemma {:induction false} BestIsFirstOptimum(cs: seq<Run>) returns (k: nat)
    ensures Best(cs) == None <==> cs == []
    ensures Best(cs).Some? ==> FirstOptimum(cs, k) && cs[k] == Best(cs).value
  {
    k := 0;
    if cs != [] {
      var n := |cs| - 1;
      var pre, c := cs[..n], cs[n];
      assert cs == pre + [c];
      k := BestIsFirstOptimum(pre);
      if Best(pre) == None || c.Better(Best(pre).value) {
        k := n;
      } else {
        assert cs[..k] == pre[..k];
      }
    }
  }

  /** Every candidate is the run through an anchor. */
  lemma {:induction false} CandidateHasAnchor<T>(a: seq<T>, b: seq<T>, w: Window, bi: nat, r: Run)
    returns (i: nat, j: nat)
    requires w.In(a, b) && w.blo <= bi <= w.bhi && r in Candidates(a, b, w, bi)
    ensures j < bi && Anchor(a, b, w, i, j) && r == RunThrough(a, b, w, i, j)
    decreases bi
  {
    hide Row;
    if r in Row(a, b, w, bi - 1) {
      j := bi - 1;
      i := RowRunHasAnchor(a, b, w, j, r);
    } else {
      i, j := CandidateHasAnchor(a, b, w, bi - 1, r);
    }
  }

  /** The run through every anchor is a candidate. */
  lemma {:induction false} AnchorRunIsCandidate<T>(a: seq<T>, b: seq<T>, w: Window, bi: nat, i: nat, j: nat)
    requires w.In(a, b) && w.blo <= bi <= w.bhi && j < bi && Anchor(a, b, w, i, j)
    ensures RunThrough(a, b, w, i, j) in Candidates(a, b, w, bi)
    decreases bi
  {
    hide Row;
    if j == bi - 1 {
      AnchorRunInRow(a, b, w, i, j);
    } else {
      AnchorRunIsCandidate(a, b, w, bi - 1, i, j);
    }
  }

  lemma RowRunHasAnchor<T>(a: seq<T>, b: seq<T>, w: Window, bi: nat, r: Run) returns (i: nat)
    requires w.In(a, b) && w.blo <= bi < w.bhi && r in Row(a, b, w, bi)
    ensures Anchor(a, b, w, i, bi) && r == RunThrough(a, b, w, i, bi)
  {
    var k :| 0 <= k < |Row(a, b, w, bi)| && Row(a, b, w, bi)[k] == r;
    i := Occurrences(a, w.alo, w.ahi, b[bi])[k];
    RowPrefixAt(a, b, w, bi, Frequency(a, w, b[bi]), k);
  }

  lemma AnchorRunInRow<T>(a: seq<T>, b: seq<T>, w: Window, i: nat, bi: nat)
    requires w.In(a, b) && Anchor(a, b, w, i, bi)
    ensures RunThrough(a, b, w, i, bi) in Row(a, b, w, bi)
  {
    OccurrencesComplete(a, w.alo, w.ahi, b[bi]);
    var occ := Occurrences(a, w.alo, w.ahi, b[bi]);
    var k :| 0 <= k < |occ| && occ[k] == i;
    RowPrefixAt(a, b, w, bi, Frequency(a, w, b[bi]), k);
  }

  lemma {:induction false} RowPrefixAt<T>(a: seq<T>, b: seq<T>, w: Window, bi: nat, n: nat, k: nat)
    requires w.In(a, b) && w.blo <= bi < w.bhi && k < n <= Frequency(a, w, b[bi])
    ensures RowPrefix(a, b, w, bi, n)[k] == RunThrough(a, b, w, Occurrences(a, w.alo, w.ahi, b[bi])[k], bi)
    decreases n
  {
    if k < n - 1 {
      RowPrefixAt(a, b, w, bi, n - 1, k);
    }
  }

  lemma BestCandidateInside<T>(a: seq<T>, b: seq<T>, w: Window)
    requires w.In(a, b)
    ensures var best := Best(Candidates(a, b, w, w.bhi)); best.Some? ==> RunInside(best.value, w)
  {
    var cs := Candidates(a, b, w, w.bhi);
    var k := BestIsFirstOptimum(cs);
    if cs != [] {
      var i, j := CandidateHasAnchor(a, b, w, w.bhi, cs[k]);
    }
  }

  /** `FindLcs` finds nothing exactly when there is no anchor; otherwise it returns the
      maximal run through an anchor, and the run through no anchor is better. */
  lemma FindLcsIsBestAnchor<T>(a: seq<T>, b: seq<T>, w: Window)
    requires w.In(a, b)
    ensures FindLcs(a, b, w) == None <==> forall i: nat, j: nat :: !Anchor(a, b, w, i, j)
    ensures FindLcs(a, b, w).Some? ==>
              && (exists i: nat, j: nat :: Anchor(a, b, w, i, j) && FindLcs(a, b, w).value == RunThrough(a, b, w, i, j))
              && (forall i: nat, j: nat :: Anchor(a, b, w, i, j) ==>
                    !RunThrough(a, b, w, i, j).Better(FindLcs(a, b, w).value))
  {
    var cs := Candidates(a, b, w, w.bhi);
    var k := BestIsFirstOptimum(cs);
    forall i: nat, j: nat | Anchor(a, b, w, i, j)
      ensures RunThrough(a, b, w, i, j) in cs
    {
      AnchorRunIsCandidate(a, b, w, w.bhi, i, j);
    }
    if cs != [] {
      var i, j := CandidateHasAnchor(a, b, w, w.bhi, cs[k]);
    }
  }

  /** `n` times the line 0. */
  function Blank(n: nat): (s: seq<nat>)
    ensures |s| == n && forall k :: 0 <= k < n ==> s[k] == 0
  {
    if n == 0 then [] else Blank(n - 1) + [0]
  }

  lemma {:induction false} BlankOccurs(a: seq<nat>, hi: nat)
    requires 1 <= hi <= |a| && a[0] != 0 && forall k :: 1 <= k < hi ==> a[k] == 0
    ensures |Occurrences(a, 0, hi, 0)| == hi - 1
    decreases hi
  {
    if hi > 1 {
      BlankOccurs(a, hi - 1);
    } else {
      assert Occurrences(a, 0, 0, 0) == [];
    }
  }

  /** Between lines that differ, the old side has a line 65 times that the new side has too.
      Nothing can be stripped, and yet the search finds nothing. */
  lemma SharedLineIsMissed()
    ensures var a, b := [1] + Blank(65) + [1], [2, 0, 2];
            && Strip(a, b, Whole(a, b)) == Whole(a, b)
            && a[1] == b[1] && FindLcs(a, b, Whole(a, b)) == None
  {
    var a, b := [1] + Blank(65) + [1], [2, 0, 2];
    EndsDiffer(a, b);
    hide FindLcs, Strip, Blank;
    NoAnchor(a, b);
    FindLcsIsBestAnchor(a, b, Whole(a, b));
  }

  lemma EndsDiffer(a: seq<nat>, b: seq<nat>)
    requires a != [] && b != [] && a[0] != b[0] && a[|a| - 1] != b[|b| - 1]
    ensures Strip(a, b, Whole(a, b)) == Whole(a, b)
  {
  }

  lemma NoAnchor(a: seq<nat>, b: seq<nat>)
    requires |a| == 67 && a[0] == a[66] == 1 && (forall k :: 1 <= k < 66 ==> a[k] == 0) && b == [2, 0, 2]
    ensures forall i: nat, j: nat :: !Anchor(a, b, Whole(a, b), i, j)
  {
    BlankOccurs(a, 66);
    var w := Whole(a, b);
    assert Frequency(a, w, 0) == 65;
    hide Frequency, Occurrences;
    forall i: nat, j: nat | i < 67 && j < 3 && a[i] == b[j]
      ensures b[j] == 0
    {
    }
  }

  /** The result of the search is a nonempty common run inside the window. */
  lemma FindLcsIsCommonRun<T>(a: seq<T>, b: seq<T>, w: Window)
    requires w.In(a, b)
    ensures FindLcs(a, b, w).Some? ==>
              var r := FindLcs(a, b, w).value;
              RunInside(r, w) && SameRun(a, r.aStart, r.aEnd, b, r.bStart, r.bEnd)
  {
    FindLcsIsBestAnchor(a, b, w);
    if FindLcs(a, b, w).Some? {
      var i: nat, j: nat :| Anchor(a, b, w, i, j) && FindLcs(a, b, w).value == RunThrough(a, b, w, i, j);
      RunThroughIsMaximal(a, b, w, i, j);
    }
  }

  // ---- what the diff promises ----

  /** The diff of every window is a valid script for it. */
  lemma {:induction false} HistIsScript<T>(a: seq<T>, b: seq<T>, w: Window)
    requires w.In(a, b)
    ensures Script(a, b, w, Hist(a, b, w))
    decreases w.ahi - w.alo
  {
    hide FindLcs;
    hide Strip;
    var v := Strip(a, b, w);
    var es := Hist(a, b, w);
    if v.alo < v.ahi && v.blo < v.bhi && FindLcs(a, b, v).Some? {
      FindLcsIsCommonRun(a, b, v);
      var r := FindLcs(a, b, v).value;
      var left := Window(v.alo, r.aStart, v.blo, r.bStart);
      var right := Window(r.aEnd, v.ahi, r.bEnd, v.bhi);
      HistIsScript(a, b, left);
      HistIsScript(a, b, right);
      ScriptPrepend(a, b, Window(r.aStart, v.ahi, r.bStart, v.bhi), r.aEnd, r.bEnd, Hist(a, b, right));
      ScriptConcat(a, b, v, r.aStart, r.bStart, Hist(a, b, left), Hist(a, b, right));
    }
    StripRemovesEqualRuns(a, b, w);
    assert Script(a, b, v, es);
    ScriptAppend(a, b, Window(v.alo, w.ahi, v.blo, w.bhi), v.ahi, v.bhi, es);
    ScriptPrepend(a, b, w, v.alo, v.blo, es);
  }

  /** Separated scripts on both sides of a nonempty equal run give a separated script. */
  lemma SeparatedAcrossRun(es: seq<Edit>, fs: seq<Edit>, r: Run)
    requires Separated(es) && Separated(fs) && r.aStart < r.aEnd && r.bStart < r.bEnd
    requires forall e :: e in es ==> e.del.end <= r.aStart && e.ins.end <= r.bStart
    requires forall f :: f in fs ==> r.aEnd <= f.del.start && r.bEnd <= f.ins.start
    ensures Separated(es + fs)
  {
    var gs := es + fs;
    forall i, j | 0 <= i < j < |gs|
      ensures gs[i].del.end < gs[j].del.start && gs[i].ins.end < gs[j].ins.start
    {
      if j < |es| {
        assert gs[i] == es[i] && gs[j] == es[j];
      } else if i < |es| {
        assert gs[i] in es && gs[j] in fs;
      } else {
        assert gs[i] == fs[i - |es|] && gs[j] == fs[j - |es|];
      }
    }
  }

  /** Its edits are separated by equal lines. */
  lemma {:induction false} HistIsSeparated<T>(a: seq<T>, b: seq<T>, w: Window)
    requires w.In(a, b)
    ensures Separated(Hist(a, b, w))
    decreases w.ahi - w.alo
  {
    hide FindLcs;
    hide Strip;
    var v := Strip(a, b, w);
    if v.alo < v.ahi && v.blo < v.bhi && FindLcs(a, b, v).Some? {
      FindLcsIsCommonRun(a, b, v);
      var r := FindLcs(a, b, v).value;
      var left := Window(v.alo, r.aStart, v.blo, r.bStart);
      var right := Window(r.aEnd, v.ahi, r.bEnd, v.bhi);
      HistIsSeparated(a, b, left);
      HistIsSeparated(a, b, right);
      HistIsScript(a, b, left);
      HistIsScript(a, b, right);
      ScriptBounds(a, b, left, Hist(a, b, left));
      ScriptBounds(a, b, right, Hist(a, b, right));
      SeparatedAcrossRun(Hist(a, b, left), Hist(a, b, right), r);
    }
  }

  lemma TightConcat<T>(a: seq<T>, b: seq<T>, es: seq<Edit>, fs: seq<Edit>)
    requires Tight(a, b, es) && Tight(a, b, fs)
    ensures Tight(a, b, es + fs)
  {
  }

  /** Its edits are tight: what they remove and add shares neither its first nor its last line. */
  lemma {:induction false} HistIsTight<T>(a: seq<T>, b: seq<T>, w: Window)
    requires w.In(a, b)
    ensures Tight(a, b, Hist(a, b, w))
    decreases w.ahi - w.alo
  {
    hide FindLcs;
    hide Strip;
    var v := Strip(a, b, w);
    if v.alo < v.ahi && v.blo < v.bhi && FindLcs(a, b, v).Some? {
      FindLcsIsCommonRun(a, b, v);
      var r := FindLcs(a, b, v).value;
      var left := Window(v.alo, r.aStart, v.blo, r.bStart);
      var right := Window(r.aEnd, v.ahi, r.bEnd, v.bhi);
      HistIsTight(a, b, left);
      HistIsTight(a, b, right);
      TightConcat(a, b, Hist(a, b, left), Hist(a, b, right));
    } else {
      StripRemovesEqualRuns(a, b, w);
      assert TightEdit(a, b, WholeEdit(v)) || Hist(a, b, w) == [];
    }
  }

  /** Equal windows have no edits. */
  lemma HistOfEqual<T>(a: seq<T>)
    ensures Hist(a, a, Whole(a, a)) == []
  {
    ForwardOfEqual(a, 0);
  }

  lemma {:induction false} ForwardOfEqual<T>(a: seq<T>, i: nat)
    requires i <= |a|
    ensures Forward(a, i, |a|, a, i, |a|) == |a| - i
    decreases |a| - i
  {
    if i < |a| {
      ForwardOfEqual(a, i + 1);
    }
  }

  // ---- the algorithm ----

  /** A line token, as the interner of `LineDiff` hands them out. */
  newtype Token = x: int | 0 <= x < 0x1_0000_0000

  /** `positions` lists for each token of `a[lo..hi]` where it occurs, and nothing else. */
  ghost predicate Lists(positions: map<Token, seq<nat>>, a: seq<Token>, lo: nat, hi: nat)
    requires lo <= hi <= |a|
  {
    && (forall t :: t in positions ==> positions[t] == Occurrences(a, lo, hi, t) != [])
    && (forall t :: Occurrences(a, lo, hi, t) != [] ==> t in positions)
  }

  method CollectPositions(a: seq<Token>, lo: nat, hi: nat) returns (positions: map<Token, seq<nat>>)
    requires lo <= hi <= |a|
    ensures Lists(positions, a, lo, hi)
  {
    positions := map[];
    for i := lo to hi
      invariant Lists(positions, a, lo, i)
    {
      var chain := if a[i] in positions then positions[a[i]] else [];
      OneMorePosition(positions, a, lo, i, chain);
      positions := positions[a[i] := chain + [i]];
    }
  }

  lemma OneMorePosition(positions: map<Token, seq<nat>>, a: seq<Token>, lo: nat, i: nat, chain: seq<nat>)
    requires lo <= i < |a| && Lists(positions, a, lo, i)
    requires chain == if a[i] in positions then positions[a[i]] else []
    ensures Lists(positions[a[i] := chain + [i]], a, lo, i + 1)
  {
    hide Occurrences;
    var longer := positions[a[i] := chain + [i]];
    OccursOnceMore(a, lo, i, a[i]);
    forall t | t in longer
      ensures longer[t] == Occurrences(a, lo, i + 1, t) != []
    {
      OccursOnceMore(a, lo, i, t);
    }
    forall t | Occurrences(a, lo, i + 1, t) != []
      ensures t in longer
    {
      OccursOnceMore(a, lo, i, t);
    }
  }

  lemma OccursOnceMore(a: seq<Token>, lo: nat, i: nat, t: Token)
    requires lo <= i < |a|
    ensures Occurrences(a, lo, i + 1, t) == if a[i] == t then Occurrences(a, lo, i, t) + [i] else Occurrences(a, lo, i, t)
  {
  }

  lemma ListsAt(positions: map<Token, seq<nat>>, a: seq<Token>, lo: nat, hi: nat, i: nat)
    requires lo <= i < hi <= |a|
    requires Lists(positions, a, lo, hi)
    ensures a[i] in positions && positions[a[i]] == Occurrences(a, lo, hi, a[i])
  {
    OccurrencesComplete(a, lo, hi, a[i]);
  }

  method RarityOf(a: seq<Token>, w: Window, positions: map<Token, seq<nat>>, s: nat, e: nat) returns (rarity: nat)
    requires w.alo <= s < e <= w.ahi <= |a|
    requires Lists(positions, a, w.alo, w.ahi)
    ensures rarity == Rarity(a, w, s, e)
  {
    hide Lists, Occurrences;
    ListsAt(positions, a, w.alo, w.ahi, s);
    rarity := |positions[a[s]]|;
    for k := s + 1 to e
      invariant rarity == Rarity(a, w, s, k)
    {
      ListsAt(positions, a, w.alo, w.ahi, k);
      if |positions[a[k]]| < rarity {
        rarity := |positions[a[k]]|;
      }
    }
  }

  /** Steps both cursors forward over the common run that starts at them. */
  method SkipForward(a: seq<Token>, i0: nat, ahi: nat, b: seq<Token>, j0: nat, bhi: nat) returns (i: nat, j: nat)
    requires i0 <= ahi <= |a| && j0 <= bhi <= |b|
    ensures i == i0 + Forward(a, i0, ahi, b, j0, bhi) && j == j0 + Forward(a, i0, ahi, b, j0, bhi)
  {
    i, j := i0, j0;
    while i < ahi && j < bhi && a[i] == b[j]
      invariant i0 <= i <= ahi && j0 <= j <= bhi && i - i0 == j - j0
      invariant i - i0 + Forward(a, i, ahi, b, j, bhi) == Forward(a, i0, ahi, b, j0, bhi)
      decreases ahi - i
    {
      i, j := i + 1, j + 1;
    }
  }

  /** Steps both cursors back over the common run that ends at them. */
  method SkipBackward(a: seq<Token>, alo: nat, i0: nat, b: seq<Token>, blo: nat, j0: nat) returns (i: nat, j: nat)
    requires alo <= i0 <= |a| && blo <= j0 <= |b|
    ensures i == i0 - Backward(a, alo, i0, b, blo, j0) && j == j0 - Backward(a, alo, i0, b, blo, j0)
  {
    i, j := i0, j0;
    while alo < i && blo < j && a[i - 1] == b[j - 1]
      invariant alo <= i <= i0 && blo <= j <= j0 && i0 - i == j0 - j
      invariant i0 - i + Backward(a, alo, i, b, blo, j) == Backward(a, alo, i0, b, blo, j0)
    {
      i, j := i - 1, j - 1;
    }
  }

  /** Grows the aligned run around `(ai, bi)` in both directions. */
  method GrowRun(a: seq<Token>, b: seq<Token>, w: Window, positions: map<Token, seq<nat>>, ai: nat, bi: nat)
    returns (run: Run)
    requires w.In(a, b) && w.alo <= ai < w.ahi && w.blo <= bi < w.bhi && a[ai] == b[bi]
    requires Lists(positions, a, w.alo, w.ahi)
    ensures run == RunThrough(a, b, w, ai, bi)
  {
    var sa, sb := SkipBackward(a, w.alo, ai, b, w.blo, bi);
    var ea, eb := SkipForward(a, ai + 1, w.ahi, b, bi + 1, w.bhi);
    var rarity := RarityOf(a, w, positions, sa, ea);
    run := Run(sa, ea, sb, eb, rarity);
  }

  lemma BestSnoc(cs: seq<Run>, c: Run)
    ensures Best(cs + [c]) == Challenge(Best(cs), c)
  {
    assert (cs + [c])[..|cs|] == cs;
  }

  /** The chain of `b[bi]` holds its places on the old side. */
  lemma ChainOf(positions: map<Token, seq<nat>>, a: seq<Token>, b: seq<Token>, w: Window, bi: nat)
    requires w.In(a, b) && w.blo <= bi < w.bhi && Lists(positions, a, w.alo, w.ahi) && b[bi] in positions
    ensures positions[b[bi]] == Occurrences(a, w.alo, w.ahi, b[bi])
    ensures forall k :: 0 <= k < |positions[b[bi]]| ==> w.alo <= positions[b[bi]][k] < w.ahi && a[positions[b[bi]][k]] == b[bi]
  {
    OccurrencesComplete(a, w.alo, w.ahi, b[bi]);
  }

  /** Lets every run through `b[bi]` challenge the best run so far. */
  method ScanRow(a: seq<Token>, b: seq<Token>, w: Window, positions: map<Token, seq<nat>>, bi: nat,
                 ghost before: seq<Run>, best0: Option<Run>) returns (best: Option<Run>)
    requires w.In(a, b) && w.blo <= bi < w.bhi
    requires Lists(positions, a, w.alo, w.ahi)
    requires b[bi] in positions && |positions[b[bi]]| <= MAX_CHAIN
    requires best0 == Best(before)
    ensures best == Best(before + Row(a, b, w, bi))
  {
    var chain := positions[b[bi]];
    best := best0;
    ChainOf(positions, a, b, w, bi);
    assert before + RowPrefix(a, b, w, bi, 0) == before;
    hide Lists, Occurrences, RunThrough, Best;
    for k := 0 to |chain|
      invariant best == Best(before + RowPrefix(a, b, w, bi, k))
    {
      var run := GrowRun(a, b, w, positions, chain[k], bi);
      ghost var seen := before + RowPrefix(a, b, w, bi, k);
      BestSnoc(seen, run);
      assert before + RowPrefix(a, b, w, bi, k + 1) == seen + [run];
      if best == None || run.Better(best.value) {
        best := Some(run);
      }
    }
  }

  /** A token that is absent from the old side, or too common, has no candidate runs. */
  lemma NoRow(a: seq<Token>, b: seq<Token>, w: Window, positions: map<Token, seq<nat>>, bi: nat)
    requires w.In(a, b) && w.blo <= bi < w.bhi
    requires Lists(positions, a, w.alo, w.ahi)
    requires b[bi] !in positions || |positions[b[bi]]| > MAX_CHAIN
    ensures Row(a, b, w, bi) == []
  {
    assert b[bi] !in positions ==> Occurrences(a, w.alo, w.ahi, b[bi]) == [];
  }

  method ScanForLcs(a: seq<Token>, b: seq<Token>, w: Window) returns (best: Option<Run>)
    requires w.In(a, b)
    ensures best == FindLcs(a, b, w)
  {
    var positions := CollectPositions(a, w.alo, w.ahi);
    best := None;
    for bi := w.blo to w.bhi
      invariant best == Best(Candidates(a, b, w, bi))
    {
      ghost var before := Candidates(a, b, w, bi);
      if b[bi] !in positions || |positions[b[bi]]| > MAX_CHAIN {
        NoRow(a, b, w, positions, bi);
        assert before + [] == before;
      } else {
        best := ScanRow(a, b, w, positions, bi, before, best);
      }
      assert Candidates(a, b, w, bi + 1) == before + Row(a, b, w, bi);
    }
  }

  /** The recursive case of `Hist`. */
  lemma HistAround<T>(a: seq<T>, b: seq<T>, w: Window, v: Window, r: Run)
    requires w.In(a, b) && v == Strip(a, b, w) && v.alo < v.ahi && v.blo < v.bhi
    requires FindLcs(a, b, v) == Some(r)
    ensures Hist(a, b, w) == Hist(a, b, Window(v.alo, r.aStart, v.blo, r.bStart))
                             + Hist(a, b, Window(r.aEnd, v.ahi, r.bEnd, v.bhi))
  {
    hide FindLcs;
    hide Strip;
  }

  /** Diffs a window, pushing the changed regions to `out` in increasing order. */
  method Diff(a: seq<Token>, b: seq<Token>, w: Window, out: seq<Edit>) returns (result: seq<Edit>)
    requires w.In(a, b)
    ensures result == out + Hist(a, b, w)
    decreases w.ahi - w.alo, 1
  {
    var alo, blo := SkipForward(a, w.alo, w.ahi, b, w.blo, w.bhi);
    var ahi, bhi := SkipBackward(a, alo, w.ahi, b, blo, w.bhi);
    var v := Window(alo, ahi, blo, bhi);
    assert v == Strip(a, b, w);
    if alo == ahi || blo == bhi {
      result := out + if alo != ahi || blo != bhi then [WholeEdit(v)] else [];
    } else {
      result := DiffStripped(a, b, v, w, out);
    }
  }

  method DiffStripped(a: seq<Token>, b: seq<Token>, v: Window, ghost w: Window, out: seq<Edit>)
    returns (result: seq<Edit>)
    requires w.In(a, b) && v == Strip(a, b, w) && v.alo < v.ahi && v.blo < v.bhi
    ensures result == out + Hist(a, b, w)
    decreases w.ahi - w.alo, 0
  {
    hide FindLcs;
    hide Strip;
    var lcs := ScanForLcs(a, b, v);
    if lcs == None {
      return out + [WholeEdit(v)];
    }
    var r := lcs.value;
    HistAround(a, b, w, v, r);
    var leftOut := Diff(a, b, Window(v.alo, r.aStart, v.blo, r.bStart), out);
    result := Diff(a, b, Window(r.aEnd, v.ahi, r.bEnd, v.bhi), leftOut);
  }
}
