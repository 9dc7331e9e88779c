/** Unified-diff hunks (crates/alt-diff/src/lib.rs, `hunks` and `build_hunk`). */
module Hunks {
  import opened EditScript
  import opened Histogram
  import opened Octets
  import opened Lines
  import opened LineDiff

  datatype Tag = Context | Removed | Added

  datatype Tagged<T> = Tagged(tag: Tag, line: T)

  /** A window of old and new lines; the starts count from 1. */
  datatype Hunk<T> = Hunk(oldStart: nat, oldLen: int, newStart: nat, newLen: int, lines: seq<Tagged<T>>)

  function Minus(x: nat, y: nat): nat {
    if x < y then 0 else x - y
  }

  function Min(x: nat, y: nat): nat {
    if x < y then x else y
  }

  // ---- grouping ----

  /** How many further edits join the group whose last edit is `last`. */
  function Joining(last: Edit, es: seq<Edit>, context: nat): (n: nat)
    ensures n <= |es|
    decreases |es|
  {
    if es != [] && es[0].del.start <= last.del.end + 2 * context then 1 + Joining(es[0], es[1..], context) else 0
  }

  /** The edits, grouped: an edit joins the one before it when their contexts touch. */
  function Groups(es: seq<Edit>, context: nat): seq<seq<Edit>>
    decreases |es|
  {
    if es == [] then []
    else
      var n := 1 + Joining(es[0], es[1..], context);
      [es[..n]] + Groups(es[n..], context)
  }

  // ---- one hunk ----

  function TagAll<T>(tag: Tag, lines: seq<T>): (ts: seq<Tagged<T>>)
    ensures |ts| == |lines|
  {
    if lines == [] then [] else TagAll(tag, lines[..|lines| - 1]) + [Tagged(tag, lines[|lines| - 1])]
  }

  /** The lines of a hunk from `oi` to `oldTo`. */
  function Body<T>(a: seq<T>, b: seq<T>, es: seq<Edit>, oi: nat, oldTo: nat): seq<Tagged<T>>
    decreases |es|
  {
    if es == [] then TagAll(Context, Cut(a, oi, oldTo))
    else
      var e := es[0];
      TagAll(Context, Cut(a, oi, e.del.start)) + TagAll(Removed, Cut(a, e.del.start, e.del.end))
      + TagAll(Added, Cut(b, e.ins.start, e.ins.end)) + Body(a, b, es[1..], e.del.end, oldTo)
  }

  function Cut<T>(s: seq<T>, lo: nat, hi: nat): seq<T> {
    if lo <= hi <= |s| then s[lo..hi] else []
  }

  function HunkOf<T>(a: seq<T>, b: seq<T>, g: seq<Edit>, context: nat): Hunk<T>
    requires g != []
  {
    var first, last := g[0], g[|g| - 1];
    var oldFrom, newFrom := Minus(first.del.start, context), Minus(first.ins.start, context);
    var oldTo, newTo := Min(last.del.end + context, |a|), Min(last.ins.end + context, |b|);
    Hunk(oldFrom + 1, oldTo as int - oldFrom, newFrom + 1, newTo as int - newFrom, Body(a, b, g, oldFrom, oldTo))
  }

  function HunksOf<T>(a: seq<T>, b: seq<T>, es: seq<Edit>, context: nat): seq<Hunk<T>>
    decreases |es|
  {
    if es == [] then []
    else
      var n := 1 + Joining(es[0], es[1..], context);
      [HunkOf(a, b, es[..n], context)] + HunksOf(a, b, es[n..], context)
  }

  // ---- what a reader of the patch does ----

  /** The lines of one side of a hunk. */
  function SideOf<T>(ts: seq<Tagged<T>>, skip: Tag): seq<T> {
    if ts == [] then []
    else SideOf(ts[..|ts| - 1], skip) + if ts[|ts| - 1].tag == skip then [] else [ts[|ts| - 1].line]
  }

  function OldSide<T>(h: Hunk<T>): seq<T> {
    SideOf(h.lines, Added)
  }

  function NewSide<T>(h: Hunk<T>): seq<T> {
    SideOf(h.lines, Removed)
  }

  /** Applies the hunks to `a[pos..]`, having written `written` lines: every hunk must lie at
      its stated positions, behind the previous one, and its old lines must be there. */
  function ApplyPatch<T(==)>(a: seq<T>, pos: nat, written: nat, hs: seq<Hunk<T>>): Option<seq<T>>
    requires pos <= |a|
    decreases |hs|
  {
    if hs == [] then Some(a[pos..])
    else
      var h := hs[0];
      var at, size := h.oldStart - 1, |OldSide(h)|;
      if at < pos || |a| < at + size || a[at..at + size] != OldSide(h) then None
      else if h.oldLen != size || h.newLen != |NewSide(h)| || h.newStart - 1 != written + (at - pos) then None
      else
        match ApplyPatch(a, at + size, written + (at - pos) + |NewSide(h)|, hs[1..])
        case None => None
        case Some(rest) => Some(a[pos..at] + NewSide(h) + rest)
  }

  /** The hunks lie in order, with at least one old line and one new line between two hunks. */
  ghost predicate Apart<T>(hs: seq<Hunk<T>>) {
    forall i, j :: 0 <= i < j < |hs| ==>
      hs[i].oldStart + hs[i].oldLen < hs[j].oldStart && hs[i].newStart + hs[i].newLen < hs[j].newStart
  }

  // ---- proofs ----

  lemma {:induction false} SideOfSplits<T>(xs: seq<Tagged<T>>, ys: seq<Tagged<T>>, skip: Tag)
    ensures SideOf(xs + ys, skip) == SideOf(xs, skip) + SideOf(ys, skip)
    decreases |ys|
  {
    if ys == [] {
      assert xs + ys == xs;
    } else {
      var n := |ys| - 1;
      assert (xs + ys)[..|xs| + n] == xs + ys[..n];
      SideOfSplits(xs, ys[..n], skip);
    }
  }

  lemma {:induction false} SideOfTagged<T>(tag: Tag, lines: seq<T>, skip: Tag)
    ensures SideOf(TagAll(tag, lines), skip) == if tag == skip then [] else lines
    decreases |lines|
  {
    if lines != [] {
      var n := |lines| - 1;
      SideOfTagged(tag, lines[..n], skip);
      assert TagAll(tag, lines)[..n] == TagAll(tag, lines[..n]);
    }
  }

  /** The body of a hunk shows the old window on one side and the new window on the other. */
  ghost predicate Shows<T>(a: seq<T>, b: seq<T>, w: Window, ts: seq<Tagged<T>>)
    requires w.In(a, b)
  {
    SideOf(ts, Added) == a[w.alo..w.ahi] && SideOf(ts, Removed) == b[w.blo..w.bhi]
  }

  lemma {:induction false} BodySides<T>(a: seq<T>, b: seq<T>, w: Window, es: seq<Edit>)
    requires w.In(a, b) && Script(a, b, w, es)
    ensures Shows(a, b, w, Body(a, b, es, w.alo, w.ahi))
    decreases |es|
  {
    if es == [] {
      SideOfTagged(Context, a[w.alo..w.ahi], Added);
      SideOfTagged(Context, a[w.alo..w.ahi], Removed);
    } else {
      var e := es[0];
      var v := Window(e.del.end, w.ahi, e.ins.end, w.bhi);
      BodySides(a, b, v, es[1..]);
      hide Script, Shows;
      ShowsStep(a, b, w, e, Body(a, b, es[1..], v.alo, v.ahi));
    }
  }

  lemma ShowsStep<T>(a: seq<T>, b: seq<T>, w: Window, e: Edit, rest: seq<Tagged<T>>)
    requires w.In(a, b)
    requires w.alo <= e.del.start <= e.del.end <= w.ahi && w.blo <= e.ins.start <= e.ins.end <= w.bhi
    requires SameRun(a, w.alo, e.del.start, b, w.blo, e.ins.start)
    requires Shows(a, b, Window(e.del.end, w.ahi, e.ins.end, w.bhi), rest)
    ensures Shows(a, b, w, TagAll(Context, Cut(a, w.alo, e.del.start)) + TagAll(Removed, Cut(a, e.del.start, e.del.end))
                           + TagAll(Added, Cut(b, e.ins.start, e.ins.end)) + rest)
  {
    hide SideOf, TagAll;
    var same, removed, added := a[w.alo..e.del.start], a[e.del.start..e.del.end], b[e.ins.start..e.ins.end];
    StepSide(same, removed, added, rest, Added);
    StepSide(same, removed, added, rest, Removed);
    ThreePieces(a, w.alo, e.del.start, e.del.end, w.ahi);
    ThreePieces(b, w.blo, e.ins.start, e.ins.end, w.bhi);
  }

  lemma ThreePieces<T>(s: seq<T>, i: nat, j: nat, k: nat, l: nat)
    requires i <= j <= k <= l <= |s|
    ensures s[i..l] == s[i..j] + s[j..k] + s[k..l]
  {
  }

  /** One side of a step of `Body`. */
  lemma StepSide<T>(same: seq<T>, removed: seq<T>, added: seq<T>, rest: seq<Tagged<T>>, skip: Tag)
    requires skip != Context
    ensures SideOf(TagAll(Context, same) + TagAll(Removed, removed) + TagAll(Added, added) + rest, skip)
         == same + (if skip == Removed then added else removed) + SideOf(rest, skip)
  {
    var x, y, z := TagAll(Context, same), TagAll(Removed, removed), TagAll(Added, added);
    hide SideOf, TagAll;
    SideOfTagged(Context, same, skip);
    SideOfTagged(Removed, removed, skip);
    SideOfTagged(Added, added, skip);
    SideOfSplits(x, y, skip);
    SideOfSplits(x + y, z, skip);
    SideOfSplits(x + y + z, rest, skip);
  }

  /** The next edit after a group, if any, is more than two contexts away. */
  lemma {:induction false} JoiningStops(last: Edit, es: seq<Edit>, context: nat)
    ensures var n := Joining(last, es, context);
            n < |es| ==> es[n].del.start > (if n == 0 then last else es[n - 1]).del.end + 2 * context
    decreases |es|
  {
    if es != [] && es[0].del.start <= last.del.end + 2 * context {
      JoiningStops(es[0], es[1..], context);
    }
  }

  /** The window has the same leading context on both sides, behind the previous hunk. */
  ghost predicate RoomBefore(alo: nat, es: seq<Edit>, context: nat) {
    es != [] ==>
      && alo <= Minus(es[0].del.start, context)
      && es[0].del.start - Minus(es[0].del.start, context) == es[0].ins.start - Minus(es[0].ins.start, context)
  }

  /** The old and the new window of the first hunk: the same amount of context on both sides. */
  function FirstWindow<T>(a: seq<T>, b: seq<T>, g: seq<Edit>, context: nat): Window
    requires g != []
  {
    Window(Minus(g[0].del.start, context), Min(g[|g| - 1].del.end + context, |a|),
           Minus(g[0].ins.start, context), Min(g[|g| - 1].ins.end + context, |b|))
  }

  /** Splits off the first group: the next edit, if any, is more than two contexts away. */
  lemma SplitGroup<T>(a: seq<T>, b: seq<T>, es: seq<Edit>, context: nat) returns (g: seq<Edit>, rest: seq<Edit>)
    requires es != []
    ensures es == g + rest && g != [] && g[0] == es[0]
    ensures rest != [] ==> rest[0].del.start > g[|g| - 1].del.end + 2 * context
    ensures Groups(es, context) == [g] + Groups(rest, context)
    ensures HunksOf(a, b, es, context) == [HunkOf(a, b, g, context)] + HunksOf(a, b, rest, context)
  {
    hide HunkOf;
    JoiningStops(es[0], es[1..], context);
    var n := 1 + Joining(es[0], es[1..], context);
    g, rest := es[..n], es[n..];
  }

  /** The edits of the first group rewrite the old window of its hunk into the new window, and
      the remaining edits have room for their own context behind it. */
  lemma FirstGroup<T>(a: seq<T>, b: seq<T>, w: Window, g: seq<Edit>, rest: seq<Edit>, context: nat)
    requires w.In(a, b) && w.ahi == |a| && w.bhi == |b| && g != [] && Script(a, b, w, g + rest)
    requires rest != [] ==> rest[0].del.start > g[|g| - 1].del.end + 2 * context
    requires RoomBefore(w.alo, g, context)
    ensures var h := FirstWindow(a, b, g, context);
            var v := Window(h.ahi, |a|, h.bhi, |b|);
            && h.In(a, b) && w.alo <= h.alo && h.alo - w.alo == h.blo - w.blo
            && SameRun(a, w.alo, h.alo, b, w.blo, h.blo)
            && Script(a, b, h, g)
            && v.In(a, b) && Script(a, b, v, rest) && RoomBefore(v.alo, rest, context)
            && (rest != [] ==> h.ahi < Minus(rest[0].del.start, context) && h.bhi < Minus(rest[0].ins.start, context))
  {
    hide Script, SameRun, Min, Minus, RoomBefore;
    ScriptSplit(a, b, w, g, rest);
    var last := g[|g| - 1];
    var h := FirstWindow(a, b, g, context);
    TrailingContext(a, b, last, rest, context);
    ScriptAppend(a, b, Window(w.alo, h.ahi, w.blo, h.bhi), last.del.end, last.ins.end, g);
    LeadingContext(a, b, Window(w.alo, h.ahi, w.blo, h.bhi), g, context);
  }

  /** Behind the last edit of a group both sides have the same trailing context, and the next
      group has room for its own leading context behind that. */
  lemma TrailingContext<T>(a: seq<T>, b: seq<T>, last: Edit, rest: seq<Edit>, context: nat)
    requires last.del.end <= |a| && last.ins.end <= |b|
    requires Script(a, b, Window(last.del.end, |a|, last.ins.end, |b|), rest)
    requires rest != [] ==> rest[0].del.start > last.del.end + 2 * context
    ensures var p, q := Min(last.del.end + context, |a|), Min(last.ins.end + context, |b|);
            var v := Window(p, |a|, q, |b|);
            && last.del.end <= p <= |a| && last.ins.end <= q <= |b| && SameRun(a, last.del.end, p, b, last.ins.end, q)
            && Script(a, b, v, rest) && RoomBefore(v.alo, rest, context)
            && (rest != [] ==> p < Minus(rest[0].del.start, context) && q < Minus(rest[0].ins.start, context))
  {
    var w := Window(last.del.end, |a|, last.ins.end, |b|);
    var u, v := FirstOld(w, rest), FirstNew(w, rest);
    SameRunLength(a, w.alo, u, b, w.blo, v);
    hide Script, SameRun;
    var p, q := Min(last.del.end + context, |a|), Min(last.ins.end + context, |b|);
    assert p <= u && q <= v && p - w.alo == q - w.blo;
    CutRun(a, w.alo, p, u, b, w.blo, q, v);
    ScriptStartsLater(a, b, w, rest, p, q);
  }

  /** In front of the first edit of a group both sides have the same leading context. */
  lemma LeadingContext<T>(a: seq<T>, b: seq<T>, w: Window, g: seq<Edit>, context: nat)
    requires w.In(a, b) && g != [] && Script(a, b, w, g) && RoomBefore(w.alo, g, context)
    ensures var p, q := Minus(g[0].del.start, context), Minus(g[0].ins.start, context);
            && w.alo <= p <= w.ahi && w.blo <= q <= w.bhi && p - w.alo == q - w.blo
            && SameRun(a, w.alo, p, b, w.blo, q) && Script(a, b, Window(p, w.ahi, q, w.bhi), g)
  {
    var u, v := g[0].del.start, g[0].ins.start;
    var p, q := Minus(u, context), Minus(v, context);
    SameRunLength(a, w.alo, u, b, w.blo, v);
    hide SameRun;
    CutRun(a, w.alo, p, u, b, w.blo, q, v);
    ScriptStartsLater(a, b, w, g, p, q);
  }

  /** The edits `g` form the first group of a script, `h` is its hunk, and `v` is the window
      behind it, where the script goes on with `rest`. */
  ghost predicate Peeled<T>(a: seq<T>, b: seq<T>, w: Window, es: seq<Edit>, context: nat, h: Hunk<T>, rest: seq<Edit>, v: Window) {
    && es != [] && |rest| < |es|
    && HunksOf(a, b, es, context) == [h] + HunksOf(a, b, rest, context)
    && HunkFits(a, b, w, h, v)
    && h.oldStart == Minus(es[0].del.start, context) + 1 && h.newStart == Minus(es[0].ins.start, context) + 1
    && v.In(a, b) && v.ahi == |a| && v.bhi == |b| && Script(a, b, v, rest) && RoomBefore(v.alo, rest, context)
    && (rest != [] ==> v.alo < Minus(rest[0].del.start, context) && v.blo < Minus(rest[0].ins.start, context))
  }

  /** `h` starts behind `w`'s start, ends where `v` starts, and shows both sides in between. */
  ghost predicate HunkFits<T>(a: seq<T>, b: seq<T>, w: Window, h: Hunk<T>, v: Window) {
    && w.alo < h.oldStart && h.oldStart - 1 + h.oldLen == v.alo <= |a| && h.oldLen >= 0
    && w.blo < h.newStart && h.newStart - 1 + h.newLen == v.blo <= |b| && h.newLen >= 0
    && SameRun(a, w.alo, h.oldStart - 1, b, w.blo, h.newStart - 1)
    && OldSide(h) == a[h.oldStart - 1..v.alo] && NewSide(h) == b[h.newStart - 1..v.blo]
  }

  /** Applying a first hunk that fits, and then the others. */
  lemma PatchStep<T>(a: seq<T>, b: seq<T>, w: Window, h: Hunk<T>, hs: seq<Hunk<T>>, v: Window)
    requires HunkFits(a, b, w, h, v)
    requires ApplyPatch(a, v.alo, v.blo, hs) == Some(b[v.blo..])
    ensures ApplyPatch(a, w.alo, w.blo, [h] + hs) == Some(b[w.blo..])
  {
    hide SideOf;
    assert ([h] + hs)[1..] == hs;
    var at := h.newStart - 1;
    assert b[w.blo..] == b[w.blo..at] + b[at..v.blo] + b[v.blo..];
  }

  lemma Peel<T>(a: seq<T>, b: seq<T>, w: Window, es: seq<Edit>, context: nat)
    returns (h: Hunk<T>, rest: seq<Edit>, v: Window)
    requires w.In(a, b) && w.ahi == |a| && w.bhi == |b| && Script(a, b, w, es) && es != []
    requires RoomBefore(w.alo, es, context)
    ensures Peeled(a, b, w, es, context, h, rest, v)
  {
    hide Script, HunksOf, SideOf, HunkOf, Min, Minus;
    var g;
    g, rest := SplitGroup(a, b, es, context);
    FirstGroup(a, b, w, g, rest, context);
    var u := FirstWindow(a, b, g, context);
    FirstHunkFits(a, b, u, g, context);
    h, v := HunkOf(a, b, g, context), Window(u.ahi, |a|, u.bhi, |b|);
  }

  lemma {:induction false} HunksApply<T>(a: seq<T>, b: seq<T>, w: Window, es: seq<Edit>, context: nat)
    requires w.In(a, b) && w.ahi == |a| && w.bhi == |b| && Script(a, b, w, es)
    requires RoomBefore(w.alo, es, context)
    ensures ApplyPatch(a, w.alo, w.blo, HunksOf(a, b, es, context)) == Some(b[w.blo..])
    decreases |es|
  {
    if es == [] {
      assert a[w.alo..] == a[w.alo..w.ahi] == b[w.blo..w.bhi] == b[w.blo..];
    } else {
      hide Script, HunksOf, ApplyPatch, SideOf, Min, Minus, RoomBefore;
      var h, rest, v := Peel(a, b, w, es, context);
      HunksApply(a, b, v, rest, context);
      PatchStep(a, b, w, h, HunksOf(a, b, rest, context), v);
    }
  }

  /** A hunk shows the old window and the new window of its group, with the right header. */
  lemma FirstHunkFits<T>(a: seq<T>, b: seq<T>, v: Window, g: seq<Edit>, context: nat)
    requires g != [] && v == FirstWindow(a, b, g, context) && v.In(a, b) && Script(a, b, v, g)
    ensures var h := HunkOf(a, b, g, context);
            && h.oldStart == v.alo + 1 && h.oldLen == v.ahi - v.alo && OldSide(h) == a[v.alo..v.ahi]
            && h.newStart == v.blo + 1 && h.newLen == v.bhi - v.blo && NewSide(h) == b[v.blo..v.bhi]
  {
    BodySides(a, b, v, g);
    hide Body, SideOf, Script, Min, Minus;
  }

  /** All hunks lie behind `(p, q)`. */
  ghost predicate Behind<T>(hs: seq<Hunk<T>>, p: nat, q: nat) {
    forall k :: 0 <= k < |hs| ==>
      p + 1 <= hs[k].oldStart && q + 1 <= hs[k].newStart && hs[k].oldLen >= 0 && hs[k].newLen >= 0
  }

  lemma ApartCons<T>(h: Hunk<T>, hs: seq<Hunk<T>>, p: nat, q: nat)
    requires Apart(hs) && Behind(hs, p, q) && h.oldLen >= 0 && h.newLen >= 0 && h.oldStart > 0 && h.newStart > 0
    requires h.oldStart + h.oldLen < p + 1 && h.newStart + h.newLen < q + 1
    ensures Apart([h] + hs) && Behind([h] + hs, h.oldStart - 1, h.newStart - 1)
  {
  }

  lemma OneHunkApart<T>(h: Hunk<T>)
    requires h.oldLen >= 0 && h.newLen >= 0 && h.oldStart > 0 && h.newStart > 0
    ensures Apart([h]) && Behind([h], h.oldStart - 1, h.newStart - 1)
  {
  }

  lemma {:induction false} HunksAreApart<T>(a: seq<T>, b: seq<T>, w: Window, es: seq<Edit>, context: nat)
    requires w.In(a, b) && w.ahi == |a| && w.bhi == |b| && Script(a, b, w, es) && es != []
    requires RoomBefore(w.alo, es, context)
    ensures Apart(HunksOf(a, b, es, context))
    ensures Behind(HunksOf(a, b, es, context), Minus(es[0].del.start, context), Minus(es[0].ins.start, context))
    decreases |es|
  {
    assert HunksOf(a, b, [], context) == [];
    hide Script, HunksOf, SideOf, Apart, Behind, Min, Minus, RoomBefore;
    var h, rest, v := Peel(a, b, w, es, context);
    if rest == [] {
      assert [h] + [] == [h];
      OneHunkApart(h);
    } else {
      HunksAreApart(a, b, v, rest, context);
      ApartCons(h, HunksOf(a, b, rest, context), Minus(rest[0].del.start, context), Minus(rest[0].ins.start, context));
    }
  }

  /** For all sequences, every valid script and every context: the hunks are a correct patch.
      Their headers are right, they do not overlap or touch, and applying them at their stated
      positions to the old lines gives the new lines. */
  lemma HunksAreCorrectPatch<T>(a: seq<T>, b: seq<T>, es: seq<Edit>, context: nat)
    requires ValidScript(a, b, es)
    ensures ApplyPatch(a, 0, 0, HunksOf(a, b, es, context)) == Some(b)
    ensures Apart(HunksOf(a, b, es, context))
  {
    if es != [] {
      SameRunLength(a, 0, es[0].del.start, b, 0, es[0].ins.start);
      HunksAreApart(a, b, Whole(a, b), es, context);
    }
    HunksApply(a, b, Whole(a, b), es, context);
    assert b[0..] == b;
  }

  // ---- the algorithm ----

  /** The groups when the last of them, `g`, may still grow by the edits `es`. */
  function OpenGroups(g: seq<Edit>, es: seq<Edit>, context: nat): seq<seq<Edit>>
    requires g != []
  {
    var n := Joining(g[|g| - 1], es, context);
    [g + es[..n]] + Groups(es[n..], context)
  }

  lemma OpenGroupsJoin(g: seq<Edit>, es: seq<Edit>, context: nat)
    requires g != [] && es != [] && es[0].del.start <= g[|g| - 1].del.end + 2 * context
    ensures OpenGroups(g, es, context) == OpenGroups(g + [es[0]], es[1..], context)
  {
    var rest := es[1..];
    var n := Joining(es[0], rest, context);
    assert g + es[..n + 1] == g + [es[0]] + rest[..n] && es[n + 1..] == rest[n..];
  }

  lemma OpenGroupsStart(es: seq<Edit>, context: nat)
    requires es != []
    ensures Groups(es, context) == OpenGroups([es[0]], es[1..], context)
  {
    var rest := es[1..];
    var n := Joining(es[0], rest, context);
    assert es[..n + 1] == [es[0]] + rest[..n] && es[n + 1..] == rest[n..];
  }

  lemma OpenGroupsNew(g: seq<Edit>, es: seq<Edit>, context: nat)
    requires g != [] && es != [] && es[0].del.start > g[|g| - 1].del.end + 2 * context
    ensures OpenGroups(g, es, context) == [g] + OpenGroups([es[0]], es[1..], context)
  {
    OpenGroupsStart(es, context);
    assert g + es[..0] == g && es[0..] == es;
  }

  /** An edit joins the last group when their contexts touch, or else starts a new group. */
  function Join(groups: seq<seq<Edit>>, e: Edit, context: nat): seq<seq<Edit>>
    requires groups != [] ==> groups[|groups| - 1] != []
  {
    if groups == [] then [[e]]
    else
      var last := groups[|groups| - 1];
      if e.del.start <= last[|last| - 1].del.end + 2 * context then groups[|groups| - 1 := last + [e]]
      else groups + [[e]]
  }

  /** What becomes of the groups when the edits `es` are still to come. */
  function Pending(groups: seq<seq<Edit>>, es: seq<Edit>, context: nat): seq<seq<Edit>>
    requires groups != [] ==> groups[|groups| - 1] != []
  {
    if groups == [] then Groups(es, context)
    else groups[..|groups| - 1] + OpenGroups(groups[|groups| - 1], es, context)
  }

  lemma JoinKeepsPending(groups: seq<seq<Edit>>, es: seq<Edit>, context: nat)
    requires groups != [] ==> groups[|groups| - 1] != []
    requires es != []
    ensures Pending(Join(groups, es[0], context), es[1..], context) == Pending(groups, es, context)
  {
    if groups == [] {
      OpenGroupsStart(es, context);
    } else if es[0].del.start <= groups[|groups| - 1][|groups[|groups| - 1]| - 1].del.end + 2 * context {
      OpenGroupsJoin(groups[|groups| - 1], es, context);
      hide OpenGroups;
      ReplaceLast(groups, groups[|groups| - 1] + [es[0]]);
    } else {
      NewGroupKeepsPending(groups, es, context);
    }
  }

  lemma NewGroupKeepsPending(groups: seq<seq<Edit>>, es: seq<Edit>, context: nat)
    requires groups != [] && groups[|groups| - 1] != [] && es != []
    requires es[0].del.start > groups[|groups| - 1][|groups[|groups| - 1]| - 1].del.end + 2 * context
    ensures Pending(groups + [[es[0]]], es[1..], context) == Pending(groups, es, context)
  {
    var closed, last := groups[..|groups| - 1], groups[|groups| - 1];
    OpenGroupsNew(last, es, context);
    hide OpenGroups;
    PushLast(groups, [es[0]]);
    SplitFirst(closed, last, OpenGroups([es[0]], es[1..], context));
  }

  lemma SplitFirst<T>(xs: seq<T>, y: T, zs: seq<T>)
    ensures xs + ([y] + zs) == (xs + [y]) + zs
  {
  }

  lemma ReplaceLast<T>(s: seq<T>, x: T)
    requires s != []
    ensures var t := s[|s| - 1 := x]; t[..|t| - 1] == s[..|s| - 1] && t[|t| - 1] == x
  {
  }

  lemma PushLast<T>(s: seq<T>, x: T)
    requires s != []
    ensures var t := s + [x]; t[..|t| - 1] == s[..|s| - 1] + [s[|s| - 1]] && t[|t| - 1] == x
  {
  }

  lemma PendingDone(groups: seq<seq<Edit>>, context: nat)
    requires groups != [] ==> groups[|groups| - 1] != []
    ensures Pending(groups, [], context) == groups
  {
    if groups != [] {
      var last := groups[|groups| - 1];
      assert last + [] == last;
      assert groups == groups[..|groups| - 1] + [last];
    }
  }

  method GroupEdits(es: seq<Edit>, context: nat) returns (groups: seq<seq<Edit>>)
    ensures groups == Groups(es, context)
  {
    hide Pending;
    groups := [];
    assert es[0..] == es && Pending([], es, context) == Groups(es, context) by { PendingStart(es, context); }
    for i := 0 to |es|
      invariant groups != [] ==> groups[|groups| - 1] != []
      invariant Pending(groups, es[i..], context) == Groups(es, context)
    {
      var e := es[i];
      assert es[i..][0] == e && es[i..][1..] == es[i + 1..];
      JoinKeepsPending(groups, es[i..], context);
      if groups == [] {
        groups := [[e]];
      } else {
        var last := groups[|groups| - 1];
        if e.del.start <= last[|last| - 1].del.end + 2 * context {
          groups := groups[|groups| - 1 := last + [e]];
        } else {
          groups := groups + [[e]];
        }
      }
    }
    PendingDone(groups, context);
  }

  lemma PendingStart(es: seq<Edit>, context: nat)
    ensures Pending([], es, context) == Groups(es, context)
  {
  }

  /** Pushes the lines `a[lo..hi]` with a tag. */
  method PushTagged(out0: seq<Tagged<Line>>, tag: Tag, a: seq<Line>, lo: nat, hi: nat) returns (out: seq<Tagged<Line>>)
    requires hi <= |a|
    ensures out == out0 + TagAll(tag, Cut(a, lo, hi))
  {
    out := out0;
    var k := lo;
    while k < hi
      invariant lo <= k && (lo <= hi ==> k <= hi)
      invariant lo <= hi ==> out == out0 + TagAll(tag, a[lo..k])
      invariant lo > hi ==> k == lo && out == out0
    {
      assert a[lo..k + 1][..k - lo] == a[lo..k];
      out := out + [Tagged(tag, a[k])];
      k := k + 1;
    }
  }

  /** Pushes the context up to an edit, what it removes and what it adds. */
  method PushEdit(out0: seq<Tagged<Line>>, a: seq<Line>, b: seq<Line>, e: Edit, oi: nat) returns (out: seq<Tagged<Line>>)
    requires e.del.start <= |a| && e.del.end <= |a| && e.ins.end <= |b|
    ensures out == out0 + TagAll(Context, Cut(a, oi, e.del.start)) + TagAll(Removed, Cut(a, e.del.start, e.del.end))
                   + TagAll(Added, Cut(b, e.ins.start, e.ins.end))
  {
    hide TagAll;
    out := PushTagged(out0, Context, a, oi, e.del.start);
    out := PushTagged(out, Removed, a, e.del.start, e.del.end);
    out := PushTagged(out, Added, b, e.ins.start, e.ins.end);
  }

  method BuildHunk(a: seq<Line>, b: seq<Line>, group: seq<Edit>, context: nat) returns (h: Hunk<Line>)
    requires group != []
    requires InRange(group, a, b)
    ensures h == HunkOf(a, b, group, context)
  {
    hide Body, InRange;
    var first, last := group[0], group[|group| - 1];
    var oldFrom, newFrom := Minus(first.del.start, context), Minus(first.ins.start, context);
    var oldTo, newTo := Min(last.del.end + context, |a|), Min(last.ins.end + context, |b|);
    var lines := BuildBody(a, b, group, oldFrom, oldTo);
    h := Hunk(oldFrom + 1, oldTo as int - oldFrom, newFrom + 1, newTo as int - newFrom, lines);
  }

  /** The lines of a hunk, edit by edit, and the trailing context. */
  method BuildBody(a: seq<Line>, b: seq<Line>, group: seq<Edit>, from: nat, oldTo: nat) returns (lines: seq<Tagged<Line>>)
    requires InRange(group, a, b) && oldTo <= |a|
    ensures lines == Body(a, b, group, from, oldTo)
  {
    hide Body, TagAll, Cut;
    lines := [];
    var oi := from;
    ghost var rest := group;
    ghost var body := Body(a, b, group, from, oldTo);
    assert lines + body == body;
    for k := 0 to |group|
      invariant rest == group[k..]
      invariant lines + Body(a, b, rest, oi, oldTo) == body
    {
      var e := group[k];
      BodyStep(a, b, rest, oi, oldTo, lines);
      DropFirst(group, k);
      lines := PushEdit(lines, a, b, e, oi);
      oi := e.del.end;
      rest := rest[1..];
    }
    BodyEnd(a, b, oi, oldTo);
    lines := PushTagged(lines, Context, a, oi, oldTo);
  }

  lemma DropFirst<T>(s: seq<T>, k: nat)
    requires k < |s|
    ensures s[k..] != [] && s[k..][0] == s[k] && s[k..][1..] == s[k + 1..]
  {
  }

  lemma BodyStep<T>(a: seq<T>, b: seq<T>, es: seq<Edit>, oi: nat, oldTo: nat, before: seq<Tagged<T>>)
    requires es != []
    ensures before + Body(a, b, es, oi, oldTo)
         == before + TagAll(Context, Cut(a, oi, es[0].del.start)) + TagAll(Removed, Cut(a, es[0].del.start, es[0].del.end))
            + TagAll(Added, Cut(b, es[0].ins.start, es[0].ins.end)) + Body(a, b, es[1..], es[0].del.end, oldTo)
  {
    hide TagAll, Cut;
  }

  lemma BodyEnd<T>(a: seq<T>, b: seq<T>, oi: nat, oldTo: nat)
    ensures Body(a, b, [], oi, oldTo) == TagAll(Context, Cut(a, oi, oldTo))
  {
  }

  /** The hunks of the diff of two buffers. */
  method MakeHunks(old_: Bytes, new_: Bytes, context: nat) returns (hs: seq<Hunk<Line>>)
    ensures var a, b := LinesOf(old_), LinesOf(new_);
            EnoughTokens(a, b) ==> hs == HunksOf(a, b, LineScript(a, b), context)
  {
    var a := SplitLines(old_);
    var b := SplitLines(new_);
    var edits := DiffLines(a, b);
    FittingIsInRange(edits, a, b);
    var groups := GroupEdits(edits, context);
    hs := BuildHunks(a, b, edits, groups, context);
  }

  lemma FittingIsInRange(edits: seq<Edit>, a: seq<Line>, b: seq<Line>)
    requires FitsLengths(edits, a, b)
    ensures InRange(edits, a, b)
  {
    var at: seq<Token>, bt: seq<Token> :| |at| == |a| && |bt| == |b| && ValidScript(at, bt, edits);
    ScriptBounds(at, bt, Whole(at, bt), edits);
    hide Script;
    assert forall k :: 0 <= k < |edits| ==> edits[k] in edits;
  }

  method BuildHunks(a: seq<Line>, b: seq<Line>, ghost edits: seq<Edit>, groups: seq<seq<Edit>>, context: nat)
    returns (hs: seq<Hunk<Line>>)
    requires groups == Groups(edits, context) && InRange(edits, a, b)
    ensures hs == HunksOf(a, b, edits, context)
  {
    hide HunkOf, HunksOf, InRange, Groups;
    hs := [];
    ghost var rest := edits;
    assert groups[0..] == groups && hs + HunksOf(a, b, rest, context) == HunksOf(a, b, edits, context);
    for k := 0 to |groups|
      invariant groups[k..] == Groups(rest, context)
      invariant InRange(rest, a, b)
      invariant hs + HunksOf(a, b, rest, context) == HunksOf(a, b, edits, context)
    {
      ghost var tail := HunksOfNext(a, b, groups[k..], rest, context);
      assert groups[k..][0] == groups[k] && groups[k..][1..] == groups[k + 1..];
      SplitFirst(hs, HunkOf(a, b, groups[k], context), HunksOf(a, b, tail, context));
      var h := BuildHunk(a, b, groups[k], context);
      hs := hs + [h];
      rest := tail;
    }
    HunksOfNone(a, b, rest, context);
  }

  /** The first of the groups, and the edits of the others. */
  lemma HunksOfNext<T>(a: seq<T>, b: seq<T>, groups: seq<seq<Edit>>, es: seq<Edit>, context: nat) returns (tail: seq<Edit>)
    requires groups != [] && groups == Groups(es, context) && InRange(es, a, b)
    ensures groups[0] != [] && InRange(groups[0], a, b) && InRange(tail, a, b)
    ensures groups[1..] == Groups(tail, context)
    ensures HunksOf(a, b, es, context) == [HunkOf(a, b, groups[0], context)] + HunksOf(a, b, tail, context)
  {
    hide HunkOf, HunksOf, InRange;
    GroupsOfSome(es, context);
    var g;
    g, tail := SplitGroup(a, b, es, context);
    InRangeParts(g, tail, a, b);
  }

  lemma GroupsOfSome(es: seq<Edit>, context: nat)
    ensures Groups(es, context) != [] ==> es != []
  {
  }

  lemma HunksOfNone<T>(a: seq<T>, b: seq<T>, es: seq<Edit>, context: nat)
    requires Groups(es, context) == []
    ensures HunksOf(a, b, es, context) == []
  {
  }

  /** Every edit lies inside the two sequences. */
  ghost predicate InRange<T>(es: seq<Edit>, a: seq<T>, b: seq<T>) {
    forall k :: 0 <= k < |es| ==> es[k].del.start <= |a| && es[k].del.end <= |a| && es[k].ins.end <= |b|
  }

  lemma InRangeParts<T>(es: seq<Edit>, fs: seq<Edit>, a: seq<T>, b: seq<T>)
    requires InRange(es + fs, a, b)
    ensures InRange(es, a, b) && InRange(fs, a, b)
  {
    assert forall k :: 0 <= k < |es| ==> es[k] == (es + fs)[k];
    assert forall k :: 0 <= k < |fs| ==> fs[k] == (es + fs)[|es| + k];
  }

  /** For all buffers and every context, the hunks of the diff are a correct patch. */
  lemma DiffHunksAreCorrectPatch(x: Bytes, y: Bytes, context: nat)
    ensures var a, b := LinesOf(x), LinesOf(y);
            var hs := HunksOf(a, b, LineScript(a, b), context);
            && ApplyPatch(a, 0, 0, hs) == Some(b) && Apart(hs) && Concat(b) == y
  {
    var a, b := LinesOf(x), LinesOf(y);
    LineScriptIsGood(a, b);
    HunksAreCorrectPatch(a, b, LineScript(a, b), context);
    LinesOfAreLines(y);
  }
}
