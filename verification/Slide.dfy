/** Sliding one-sided edits to their lowest position (crates/alt-merge/src/lib.rs, `slide_down`). */
module Slide {
  import opened EditScript
  import opened Histogram

  function Shift(e: Edit): Edit {
    Edit(Range(e.del.start + 1, e.del.end + 1), Range(e.ins.start + 1, e.ins.end + 1))
  }

  /** May `e` move down one line, inside an equal run that ends at the limits? */
  predicate Slides<T(==)>(base: seq<T>, side: seq<T>, e: Edit, oldLimit: nat, newLimit: nat) {
    && oldLimit <= |base| && newLimit <= |side|
    && e.del.start <= e.del.end && e.ins.start <= e.ins.end
    && if e.del.IsEmpty() then
         e.del.start < oldLimit && e.ins.end < newLimit && base[e.del.start] == side[e.ins.start]
       else
         && e.ins.IsEmpty()
         && e.del.end < oldLimit && e.ins.start < newLimit && base[e.del.start] == base[e.del.end]
  }

  /** `e` moved down as far as it goes. */
  function Slid<T(==)>(base: seq<T>, side: seq<T>, e: Edit, oldLimit: nat, newLimit: nat): Edit
    decreases oldLimit - e.del.start
  {
    if Slides(base, side, e, oldLimit, newLimit) then Slid(base, side, Shift(e), oldLimit, newLimit) else e
  }

  /** Every edit slides inside the equal run between it and the next one. */
  function SlidScript<T(==)>(base: seq<T>, side: seq<T>, es: seq<Edit>): (fs: seq<Edit>)
    ensures |fs| == |es|
  {
    if es == [] then []
    else
      var e := if |es| == 1 then Slid(base, side, es[0], |base|, |side|)
               else Slid(base, side, es[0], es[1].del.start, es[1].ins.start);
      [e] + SlidScript(base, side, es[1..])
  }

  /** `e` is an edit with an equal run before it, from `(p, q)`, and one behind it, to `(u, v)`. */
  ghost predicate Between<T>(base: seq<T>, side: seq<T>, p: nat, q: nat, e: Edit, u: nat, v: nat) {
    && p <= e.del.start <= e.del.end <= u <= |base| && q <= e.ins.start <= e.ins.end <= v <= |side|
    && SameRun(base, p, e.del.start, side, q, e.ins.start)
    && SameRun(base, e.del.end, u, side, e.ins.end, v)
  }

  lemma ShiftKeepsRuns<T>(base: seq<T>, side: seq<T>, p: nat, q: nat, e: Edit, u: nat, v: nat)
    requires Between(base, side, p, q, e, u, v) && Slides(base, side, e, u, v)
    ensures Between(base, side, p, q, Shift(e), u, v)
  {
    assert |base[e.del.end..u]| == |side[e.ins.end..v]|;
    assert base[e.del.end..u][0] == side[e.ins.end..v][0];
    var s, t := e.del.start, e.ins.start;
    assert base[s..s + 1] == [base[s]] == side[t..t + 1];
    GlueRuns(base, p, s, s + 1, side, q, t, t + 1);
    assert base[e.del.end + 1..u] == base[e.del.end..u][1..];
    assert side[e.ins.end + 1..v] == side[e.ins.end..v][1..];
  }

  /** Sliding keeps the run before the edit and the run behind it equal. */
  lemma {:induction false} SlidKeepsRuns<T>(base: seq<T>, side: seq<T>, p: nat, q: nat, e: Edit, u: nat, v: nat)
    requires Between(base, side, p, q, e, u, v)
    ensures Between(base, side, p, q, Slid(base, side, e, u, v), u, v)
    decreases u - e.del.start
  {
    if Slides(base, side, e, u, v) {
      ShiftKeepsRuns(base, side, p, q, e, u, v);
      SlidKeepsRuns(base, side, p, q, Shift(e), u, v);
    }
  }

  /** Sliding turns a valid script into a valid script for the same pair. */
  lemma {:induction false} SlideKeepsScript<T>(a: seq<T>, b: seq<T>, w: Window, es: seq<Edit>)
    requires w.In(a, b) && w.ahi == |a| && w.bhi == |b|
    requires Script(a, b, w, es)
    ensures Script(a, b, w, SlidScript(a, b, es))
    ensures FirstOld(w, es) <= FirstOld(w, SlidScript(a, b, es))
    decreases |es|
  {
    if es != [] {
      var e, rest := es[0], es[1..];
      var v := Window(e.del.end, w.ahi, e.ins.end, w.bhi);
      var u0, v0 := FirstOld(v, rest), FirstNew(v, rest);
      SlideKeepsScript(a, b, v, rest);
      SlidKeepsRuns(a, b, w.alo, w.blo, e, u0, v0);
      SlidOffsets(a, b, e, u0, v0);
      var f := Slid(a, b, e, u0, v0);
      ScriptStartsLater(a, b, v, SlidScript(a, b, rest), f.del.end, f.ins.end);
      assert SlidScript(a, b, es)[1..] == SlidScript(a, b, rest);
    }
  }

  /** All four bounds of an edit slide by the same number of lines. */
  lemma {:induction false} SlidOffsets<T>(base: seq<T>, side: seq<T>, e: Edit, u: nat, v: nat)
    ensures var f := Slid(base, side, e, u, v);
            && e.del.start <= f.del.start
            && f.del.end - e.del.end == f.del.start - e.del.start
            && f.ins.start - e.ins.start == f.del.start - e.del.start
            && f.ins.end - e.ins.end == f.del.start - e.del.start
    decreases u - e.del.start
  {
    if Slides(base, side, e, u, v) {
      SlidOffsets(base, side, Shift(e), u, v);
    }
  }

  // ---- the canonical place of a change ----

  predicate OneSided(e: Edit) {
    !e.IsEmpty() && (e.del.IsEmpty() || e.ins.IsEmpty())
  }

  lemma SameRunAt<T>(base: seq<T>, p: nat, u: nat, side: seq<T>, q: nat, v: nat, k: nat)
    requires SameRun(base, p, u, side, q, v) && k < u - p
    ensures q + k < v && base[p + k] == side[q + k]
  {
    assert |base[p..u]| == |side[q..v]|;
    assert base[p + k] == base[p..u][k] == side[q..v][k] == side[q + k];
  }

  lemma {:induction false} PrefixIsLongest<T>(base: seq<T>, p: nat, u: nat, side: seq<T>, q: nat, v: nat, n: nat)
    requires p + n <= u <= |base| && q + n <= v <= |side| && SameRun(base, p, p + n, side, q, q + n)
    ensures n <= Forward(base, p, u, side, q, v)
    decreases n
  {
    if n > 0 {
      SameRunAt(base, p, p + n, side, q, q + n, 0);
      CutRun(base, p, p + 1, p + n, side, q, q + 1, q + n);
      PrefixIsLongest(base, p + 1, u, side, q + 1, v, n - 1);
    }
  }

  /** The lowest place of a change is right behind the common prefix of the room it has. */
  function Canonical<T(==)>(base: seq<T>, p: nat, u: nat, side: seq<T>, q: nat, v: nat, e: Edit): Edit
    requires p <= u <= |base| && q <= v <= |side|
  {
    var n := Forward(base, p, u, side, q, v);
    Edit(Range(p + n, p + n + e.del.Len()), Range(q + n, q + n + e.ins.Len()))
  }

  /** A one-sided edit can move down exactly while it starts inside the common prefix. */
  lemma SlidesInsidePrefix<T>(base: seq<T>, side: seq<T>, p: nat, q: nat, e: Edit, u: nat, v: nat)
    requires OneSided(e) && Between(base, side, p, q, e, u, v)
    ensures e.del.start - p == e.ins.start - q <= Forward(base, p, u, side, q, v)
    ensures Slides(base, side, e, u, v) <==> e.del.start - p < Forward(base, p, u, side, q, v)
  {
    var n, i := Forward(base, p, u, side, q, v), e.del.start - p;
    SameRunLength(base, p, e.del.start, side, q, e.ins.start);
    SameRunLength(base, e.del.end, u, side, e.ins.end, v);
    PrefixIsLongest(base, p, u, side, q, v, i);
    ForwardIsMaximalRun(base, p, u, side, q, v);
    hide SameRun, Forward;
    if i < n {
      SameRunAt(base, p, p + n, side, q, q + n, i);
    }
    if e.del.end < u {
      SameRunAt(base, e.del.end, u, side, e.ins.end, v, 0);
    }
  }

  /** Whatever its place between the runs, a one-sided edit slides to the same one. */
  lemma {:induction false} ChangeSlidesToCanonical<T>(base: seq<T>, side: seq<T>, p: nat, q: nat, e: Edit, u: nat, v: nat)
    requires OneSided(e) && Between(base, side, p, q, e, u, v)
    ensures Slid(base, side, e, u, v) == Canonical(base, p, u, side, q, v, e)
    decreases u - e.del.start
  {
    hide Between, Forward, Slides;
    SlidesInsidePrefix(base, side, p, q, e, u, v);
    BetweenFits(base, side, p, q, e, u, v);
    if Slides(base, side, e, u, v) {
      ShiftKeepsRuns(base, side, p, q, e, u, v);
      ChangeSlidesToCanonical(base, side, p, q, Shift(e), u, v);
    }
  }

  lemma BetweenFits<T>(base: seq<T>, side: seq<T>, p: nat, q: nat, e: Edit, u: nat, v: nat)
    requires Between(base, side, p, q, e, u, v)
    ensures p <= e.del.start <= e.del.end <= u <= |base| && q <= e.ins.start <= e.ins.end <= v <= |side|
    ensures e.del.start - p == e.ins.start - q && u - e.del.end == v - e.ins.end
  {
    SameRunLength(base, p, e.del.start, side, q, e.ins.start);
    SameRunLength(base, e.del.end, u, side, e.ins.end, v);
  }

  lemma SamePlaceInRoom<T>(base: seq<T>, side: seq<T>, p: nat, q: nat, e: Edit, f: Edit, u: nat, v: nat)
    requires OneSided(e) && OneSided(f) && Between(base, side, p, q, e, u, v) && Between(base, side, p, q, f, u, v)
    ensures Slid(base, side, e, u, v) == Slid(base, side, f, u, v)
  {
    hide Between, Slides, Forward;
    BetweenFits(base, side, p, q, e, u, v);
    BetweenFits(base, side, p, q, f, u, v);
    ChangeSlidesToCanonical(base, side, p, q, e, u, v);
    ChangeSlidesToCanonical(base, side, p, q, f, u, v);
  }

  // ---- single changes ----

  /** A single insertion or a single deletion that makes `base` into `side`. */
  ghost predicate SingleChange<T>(base: seq<T>, side: seq<T>, e: Edit) {
    ValidScript(base, side, [e]) && OneSided(e)
  }

  /** All scripts that make the change with a single insertion, or a single deletion, slide to
      one and the same edit, and no valid placement of the change is lower. */
  lemma SingleChangeIsCanonical<T>(base: seq<T>, side: seq<T>, e: Edit, f: Edit)
    requires SingleChange(base, side, e) && SingleChange(base, side, f)
    ensures SlidScript(base, side, [e]) == SlidScript(base, side, [f])
    ensures var g := SlidScript(base, side, [e])[0];
            SingleChange(base, side, g) && e.del.start <= g.del.start && f.del.start <= g.del.start
  {
    assert [] + [e] + [] == [e] && [] + [f] + [] == [f];
    PlacementIsSettled(base, side, [], e, f, []);
    var es, fs := SlidScript(base, side, [e]), SlidScript(base, side, [f]);
    assert es[0] == Slid(base, side, e, |base|, |side|) && fs[0] == Slid(base, side, f, |base|, |side|);
    assert es == [es[0]] && fs == [fs[0]];
    SlideKeepsScript(base, side, Whole(base, side), [e]);
    hide SlidScript, Slid, Script;
    SlidOffsets(base, side, e, |base|, |side|);
    SlidOffsets(base, side, f, |base|, |side|);
  }

  // ---- one edit among others ----

  /** Where the edit before ends, and where the edit behind starts. */
  function RoomStart(pre: seq<Edit>): (nat, nat) {
    if pre == [] then (0, 0) else (pre[|pre| - 1].del.end, pre[|pre| - 1].ins.end)
  }

  function RoomEnd<T>(base: seq<T>, side: seq<T>, post: seq<Edit>): (nat, nat) {
    if post == [] then (|base|, |side|) else (post[0].del.start, post[0].ins.start)
  }

  lemma {:induction false} MiddleIsBetween<T>(base: seq<T>, side: seq<T>, w: Window, pre: seq<Edit>, e: Edit, post: seq<Edit>)
    requires w.In(base, side) && w.ahi == |base| && w.bhi == |side| && Script(base, side, w, pre + [e] + post)
    ensures var (p, q) := if pre == [] then (w.alo, w.blo) else RoomStart(pre);
            var (u, v) := RoomEnd(base, side, post);
            Between(base, side, p, q, e, u, v)
    decreases |pre|
  {
    var es := pre + [e] + post;
    if pre == [] {
      assert es[0] == e && es[1..] == post;
    } else {
      assert es[0] == pre[0] && es[1..] == pre[1..] + [e] + post;
      MiddleIsBetween(base, side, Window(pre[0].del.end, w.ahi, pre[0].ins.end, w.bhi), pre[1..], e, post);
    }
  }

  /** Two scripts that differ in the place of one one-sided edit slide to the same edits there and
      everywhere else, but for the edit right before. */
  lemma PlacementIsSettled<T>(base: seq<T>, side: seq<T>, pre: seq<Edit>, e: Edit, f: Edit, post: seq<Edit>)
    requires ValidScript(base, side, pre + [e] + post) && ValidScript(base, side, pre + [f] + post) && OneSided(e) && OneSided(f)
    ensures forall k :: 0 <= k < |pre| + 1 + |post| && k != |pre| - 1 ==>
              SlidScript(base, side, pre + [e] + post)[k] == SlidScript(base, side, pre + [f] + post)[k]
  {
    var es, fs := pre + [e] + post, pre + [f] + post;
    MiddleIsBetween(base, side, Whole(base, side), pre, e, post);
    MiddleIsBetween(base, side, Whole(base, side), pre, f, post);
    var (p, q) := RoomStart(pre);
    var (u, v) := RoomEnd(base, side, post);
    SamePlaceInRoom(base, side, p, q, e, f, u, v);
    hide Script, Between, Slid;
    forall k: nat | k < |es| && k != |pre| - 1
      ensures SlidScript(base, side, es)[k] == SlidScript(base, side, fs)[k]
    {
      SlidScriptAt(base, side, es, k);
      SlidScriptAt(base, side, fs, k);
    }
  }

  lemma {:induction false} SlidFurther<T>(base: seq<T>, side: seq<T>, e: Edit, u: nat, v: nat, u': nat, v': nat)
    requires u <= u' <= |base| && v <= v' <= |side|
    ensures Slid(base, side, Slid(base, side, e, u, v), u', v') == Slid(base, side, e, u', v')
    decreases u - e.del.start
  {
    if Slides(base, side, e, u, v) {
      SlidFurther(base, side, Shift(e), u, v, u', v');
    }
  }

  lemma MovesIfItSlides<T>(base: seq<T>, side: seq<T>, e: Edit, u: nat, v: nat)
    ensures Slid(base, side, e, u, v) == e <==> !Slides(base, side, e, u, v)
  {
    if Slides(base, side, e, u, v) {
      SlidOffsets(base, side, Shift(e), u, v);
    }
  }

  /** With `f` no higher than `e`, the scripts slide to the same one if and only if there is no edit
      before, or the edit before, slid down towards `e`, could not slide on towards `f`. */
  lemma SameScriptExactlyWhenStopped<T>(base: seq<T>, side: seq<T>, pre: seq<Edit>, e: Edit, f: Edit, post: seq<Edit>)
    requires ValidScript(base, side, pre + [e] + post) && ValidScript(base, side, pre + [f] + post) && OneSided(e) && OneSided(f)
    requires e.del.start <= f.del.start
    ensures SlidScript(base, side, pre + [e] + post) == SlidScript(base, side, pre + [f] + post)
       <==> pre == []
            || !Slides(base, side, Slid(base, side, pre[|pre| - 1], e.del.start, e.ins.start), f.del.start, f.ins.start)
  {
    var es, fs := pre + [e] + post, pre + [f] + post;
    PlacementIsSettled(base, side, pre, e, f, post);
    if pre != [] {
      var i, d := |pre| - 1, pre[|pre| - 1];
      SlidScriptAt(base, side, es, i);
      SlidScriptAt(base, side, fs, i);
      assert es[i] == fs[i] == d && es[i + 1] == e && fs[i + 1] == f;
      MiddleIsBetween(base, side, Whole(base, side), pre, e, post);
      MiddleIsBetween(base, side, Whole(base, side), pre, f, post);
      var (p, q) := RoomStart(pre);
      var (u, v) := RoomEnd(base, side, post);
      BetweenFits(base, side, p, q, e, u, v);
      BetweenFits(base, side, p, q, f, u, v);
      hide Script, Between, Slid, Slides;
      SlidFurther(base, side, d, e.del.start, e.ins.start, f.del.start, f.ins.start);
      MovesIfItSlides(base, side, Slid(base, side, d, e.del.start, e.ins.start), f.del.start, f.ins.start);
    }
  }

  /** Two equal lines are inserted among two equal ones. The second insertion is found in two
      places, and keeps the first from sliding in the one but not in the other. */
  lemma NeighbourStopsSliding()
    ensures var base, side := [7, 7], [7, 7, 7, 7];
            var d, e, f := Edit(Range(0, 0), Range(0, 1)), Edit(Range(1, 1), Range(2, 3)), Edit(Range(2, 2), Range(3, 4));
            && ValidScript(base, side, [d, e]) && ValidScript(base, side, [d, f])
            && SlidScript(base, side, [d, e])[1] == SlidScript(base, side, [d, f])[1]
            && SlidScript(base, side, [d, e]) != SlidScript(base, side, [d, f])
  {
    var base, side := [7, 7], [7, 7, 7, 7];
    var d, e, f := Edit(Range(0, 0), Range(0, 1)), Edit(Range(1, 1), Range(2, 3)), Edit(Range(2, 2), Range(3, 4));
    assert [d, e][1..] == [e] && [d, f][1..] == [f] && [e][1..] == [] && [f][1..] == [];
    assert Script(base, side, Window(0, 2, 1, 4), [e]) && Script(base, side, Window(0, 2, 1, 4), [f]);
    assert ValidScript(base, side, [d, e]) && ValidScript(base, side, [d, f]);
    assert Slid(base, side, d, 1, 2) == Shift(d);
    assert [d] + [e] + [] == [d, e] && [d] + [f] + [] == [d, f];
    hide Script;
    SameScriptExactlyWhenStopped(base, side, [d], e, f, []);
    PlacementIsSettled(base, side, [d], e, f, []);
  }

  // ---- the algorithm ----

  lemma {:induction false} SlidScriptAt<T>(base: seq<T>, side: seq<T>, es: seq<Edit>, i: nat)
    requires i < |es|
    ensures SlidScript(base, side, es)[i]
         == (if i == |es| - 1 then Slid(base, side, es[i], |base|, |side|)
             else Slid(base, side, es[i], es[i + 1].del.start, es[i + 1].ins.start))
    decreases i
  {
    if i > 0 {
      SlidScriptAt(base, side, es[1..], i - 1);
    }
  }

  /** Slides the edits of the array one after the other, where they stand. */
  method SlideDown<T(==)>(edits: array<Edit>, base: seq<T>, side: seq<T>)
    requires ValidScript(base, side, edits[..])
    modifies edits
    ensures edits[..] == SlidScript(base, side, old(edits[..]))
  {
    ghost var es := edits[..];
    ScriptBounds(base, side, Whole(base, side), es);
    for i := 0 to edits.Length
      invariant forall k :: 0 <= k < i ==> edits[k] == SlidScript(base, side, es)[k]
      invariant forall k :: i <= k < edits.Length ==> edits[k] == es[k]
    {
      assert es[i] in es;
      var oldLimit, newLimit := |base|, |side|;
      if i + 1 < edits.Length {
        assert es[i + 1] in es;
        oldLimit, newLimit := edits[i + 1].del.start, edits[i + 1].ins.start;
      }
      SlidScriptAt(base, side, es, i);
      if edits[i].del.IsEmpty() {
        SlideInsertion(edits, i, base, side, oldLimit, newLimit);
      } else if edits[i].ins.IsEmpty() {
        SlideDeletion(edits, i, base, side, oldLimit, newLimit);
      }
    }
  }

  method SlideInsertion<T(==)>(edits: array<Edit>, i: nat, base: seq<T>, side: seq<T>, oldLimit: nat, newLimit: nat)
    requires i < edits.Length && oldLimit <= |base| && newLimit <= |side|
    requires edits[i].del.start == edits[i].del.end && edits[i].ins.start <= edits[i].ins.end
    modifies edits
    ensures edits[..] == old(edits[..])[i := Slid(base, side, old(edits[i]), oldLimit, newLimit)]
  {
    while edits[i].del.start < oldLimit && edits[i].ins.end < newLimit
          && base[edits[i].del.start] == side[edits[i].ins.start]
      invariant edits[i].del.start == edits[i].del.end && edits[i].ins.start <= edits[i].ins.end
      invariant Slid(base, side, edits[i], oldLimit, newLimit) == Slid(base, side, old(edits[i]), oldLimit, newLimit)
      invariant forall k :: 0 <= k < edits.Length && k != i ==> edits[k] == old(edits[k])
      decreases oldLimit - edits[i].del.start
    {
      edits[i] := Shift(edits[i]);
    }
  }

  method SlideDeletion<T(==)>(edits: array<Edit>, i: nat, base: seq<T>, side: seq<T>, oldLimit: nat, newLimit: nat)
    requires i < edits.Length && oldLimit <= |base| && newLimit <= |side|
    requires edits[i].del.start < edits[i].del.end && edits[i].ins.start == edits[i].ins.end
    modifies edits
    ensures edits[..] == old(edits[..])[i := Slid(base, side, old(edits[i]), oldLimit, newLimit)]
  {
    while edits[i].del.end < oldLimit && edits[i].ins.start < newLimit
          && base[edits[i].del.start] == base[edits[i].del.end]
      invariant edits[i].del.start < edits[i].del.end && edits[i].ins.start == edits[i].ins.end
      invariant Slid(base, side, edits[i], oldLimit, newLimit) == Slid(base, side, old(edits[i]), oldLimit, newLimit)
      invariant forall k :: 0 <= k < edits.Length && k != i ==> edits[k] == old(edits[k])
      decreases oldLimit - edits[i].del.end
    {
      edits[i] := Shift(edits[i]);
    }
  }
}
