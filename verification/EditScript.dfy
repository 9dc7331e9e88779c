/** Edit scripts between two line sequences (crates/alt-diff/src/lib.rs).

    A script is a list of edits. It is valid for a pair of sequences when its edits are
    ordered and disjoint on both sides and the gaps between them are equal, line by line.
    Every other diff and merge module is stated in terms of `Script`. */
module EditScript {

  /** A half-open range of line indices. */
  datatype Range = Range(start: nat, end: nat) {
    predicate IsEmpty() {
      end <= start
    }

    function Len(): nat {
      if end <= start then 0 else end - start
    }
  }

  /** The lines `del` of the old side were replaced by the lines `ins` of the new side. */
  datatype Edit = Edit(del: Range, ins: Range) {
    predicate IsEmpty() {
      del.IsEmpty() && ins.IsEmpty()
    }
  }

  /** A window `[alo, ahi) x [blo, bhi)` of a pair of sequences. */
  datatype Window = Window(alo: nat, ahi: nat, blo: nat, bhi: nat) {
    predicate In<T>(a: seq<T>, b: seq<T>) {
      alo <= ahi <= |a| && blo <= bhi <= |b|
    }
  }

  /** `a[i..ie]` and `b[j..je]` are the same lines. */
  ghost predicate SameRun<T>(a: seq<T>, i: nat, ie: nat, b: seq<T>, j: nat, je: nat) {
    i <= ie <= |a| && j <= je <= |b| && a[i..ie] == b[j..je]
  }

  /** `es` rewrites `a[w.alo..w.ahi]` into `b[w.blo..w.bhi]`: ordered, disjoint, equal gaps. */
  ghost predicate Script<T>(a: seq<T>, b: seq<T>, w: Window, es: seq<Edit>)
    requires w.In(a, b)
    decreases |es|
  {
    if es == [] then
      SameRun(a, w.alo, w.ahi, b, w.blo, w.bhi)
    else
      var e := es[0];
      && w.alo <= e.del.start <= e.del.end <= w.ahi
      && w.blo <= e.ins.start <= e.ins.end <= w.bhi
      && SameRun(a, w.alo, e.del.start, b, w.blo, e.ins.start)
      && Script(a, b, Window(e.del.end, w.ahi, e.ins.end, w.bhi), es[1..])
  }

  function Whole<T>(a: seq<T>, b: seq<T>): Window {
    Window(0, |a|, 0, |b|)
  }

  ghost predicate ValidScript<T>(a: seq<T>, b: seq<T>, es: seq<Edit>) {
    Script(a, b, Whole(a, b), es)
  }

  /** What a reader of the script does with it: copy the gaps from `a`, the new lines from `b`. */
  ghost function Apply<T>(a: seq<T>, b: seq<T>, w: Window, es: seq<Edit>): seq<T>
    requires w.In(a, b)
    requires Script(a, b, w, es)
    decreases |es|
  {
    if es == [] then
      a[w.alo..w.ahi]
    else
      var e := es[0];
      a[w.alo..e.del.start] + b[e.ins.start..e.ins.end]
      + Apply(a, b, Window(e.del.end, w.ahi, e.ins.end, w.bhi), es[1..])
  }

  /** Any two edits leave at least one equal line between them, on both sides. */
  ghost predicate Separated(es: seq<Edit>) {
    forall i, j :: 0 <= i < j < |es| ==> es[i].del.end < es[j].del.start && es[i].ins.end < es[j].ins.start
  }

  /** The edit changes something, and a two-sided edit differs in its first and last line. */
  ghost predicate TightEdit<T>(a: seq<T>, b: seq<T>, e: Edit) {
    && !e.IsEmpty()
    && e.del.end <= |a| && e.ins.end <= |b|
    && (!e.del.IsEmpty() && !e.ins.IsEmpty() ==>
          a[e.del.start] != b[e.ins.start] && a[e.del.end - 1] != b[e.ins.end - 1])
  }

  ghost predicate Tight<T>(a: seq<T>, b: seq<T>, es: seq<Edit>) {
    forall k :: 0 <= k < |es| ==> TightEdit(a, b, es[k])
  }

  /** Applying a valid script to `a` gives `b`. */
  lemma {:induction false} ApplyGivesNew<T>(a: seq<T>, b: seq<T>, w: Window, es: seq<Edit>)
    requires w.In(a, b)
    requires Script(a, b, w, es)
    ensures Apply(a, b, w, es) == b[w.blo..w.bhi]
    decreases |es|
  {
    if es != [] {
      var e := es[0];
      ApplyGivesNew(a, b, Window(e.del.end, w.ahi, e.ins.end, w.bhi), es[1..]);
      assert b[w.blo..w.bhi] == b[w.blo..e.ins.end] + b[e.ins.end..w.bhi];
      assert b[w.blo..e.ins.end] == b[w.blo..e.ins.start] + b[e.ins.start..e.ins.end];
    }
  }

  /** Equal runs that meet make one equal run. */
  lemma GlueRuns<T>(a: seq<T>, i: nat, am: nat, ie: nat, b: seq<T>, j: nat, bm: nat, je: nat)
    requires SameRun(a, i, am, b, j, bm) && SameRun(a, am, ie, b, bm, je)
    ensures SameRun(a, i, ie, b, j, je)
  {
    assert a[i..ie] == a[i..am] + a[am..ie];
    assert b[j..je] == b[j..bm] + b[bm..je];
  }

  lemma SameRunLength<T>(a: seq<T>, i: nat, ie: nat, b: seq<T>, j: nat, je: nat)
    requires SameRun(a, i, ie, b, j, je)
    ensures ie - i == je - j
  {
    assert |a[i..ie]| == |b[j..je]|;
  }

  lemma EmptyRun<T>(a: seq<T>, i: nat, b: seq<T>, j: nat)
    requires i <= |a| && j <= |b|
    ensures SameRun(a, i, i, b, j, j)
  {
  }

  /** An equal run can be cut in two. */
  lemma CutRun<T>(a: seq<T>, i: nat, am: nat, ie: nat, b: seq<T>, j: nat, bm: nat, je: nat)
    requires SameRun(a, i, ie, b, j, je) && i <= am <= ie && j <= bm && am - i == bm - j
    ensures SameRun(a, i, am, b, j, bm) && SameRun(a, am, ie, b, bm, je)
  {
    var x, y := a[i..ie], b[j..je];
    assert |x| == ie - i && |y| == je - j;
    assert a[i..am] == x[..am - i] && b[j..bm] == y[..am - i];
    assert a[am..ie] == x[am - i..] && b[bm..je] == y[am - i..];
  }

  /** Scripts of two adjacent windows concatenate. */
  lemma {:induction false} ScriptConcat<T>(a: seq<T>, b: seq<T>, w: Window, am: nat, bm: nat, es: seq<Edit>, fs: seq<Edit>)
    requires w.In(a, b) && w.alo <= am <= w.ahi && w.blo <= bm <= w.bhi
    requires Script(a, b, Window(w.alo, am, w.blo, bm), es)
    requires Script(a, b, Window(am, w.ahi, bm, w.bhi), fs)
    ensures Script(a, b, w, es + fs)
    decreases |es|
  {
    if es == [] {
      assert es + fs == fs;
      ScriptPrepend(a, b, w, am, bm, fs);
    } else {
      var e := es[0];
      ScriptConcat(a, b, Window(e.del.end, w.ahi, e.ins.end, w.bhi), am, bm, es[1..], fs);
      assert (es + fs)[1..] == es[1..] + fs;
    }
  }

  /** An equal run in front of a window extends its script. */
  lemma ScriptPrepend<T>(a: seq<T>, b: seq<T>, w: Window, am: nat, bm: nat, fs: seq<Edit>)
    requires w.In(a, b) && w.alo <= am <= w.ahi && w.blo <= bm <= w.bhi
    requires SameRun(a, w.alo, am, b, w.blo, bm)
    requires Script(a, b, Window(am, w.ahi, bm, w.bhi), fs)
    ensures Script(a, b, w, fs)
  {
    if fs == [] {
      GlueRuns(a, w.alo, am, w.ahi, b, w.blo, bm, w.bhi);
    } else {
      var e := fs[0];
      GlueRuns(a, w.alo, am, e.del.start, b, w.blo, bm, e.ins.start);
    }
  }

  /** An equal run behind a window extends its script. */
  lemma ScriptAppend<T>(a: seq<T>, b: seq<T>, w: Window, am: nat, bm: nat, es: seq<Edit>)
    requires w.In(a, b) && w.alo <= am <= w.ahi && w.blo <= bm <= w.bhi
    requires SameRun(a, am, w.ahi, b, bm, w.bhi)
    requires Script(a, b, Window(w.alo, am, w.blo, bm), es)
    ensures Script(a, b, w, es)
  {
    assert es + [] == es;
    ScriptConcat(a, b, w, am, bm, es, []);
  }

  /** Every edit of a script lies in its window. */
  lemma {:induction false} ScriptBounds<T>(a: seq<T>, b: seq<T>, w: Window, es: seq<Edit>)
    requires w.In(a, b)
    requires Script(a, b, w, es)
    ensures forall e :: e in es ==>
              w.alo <= e.del.start <= e.del.end <= w.ahi && w.blo <= e.ins.start <= e.ins.end <= w.bhi
    decreases |es|
  {
    if es != [] {
      ScriptBounds(a, b, Window(es[0].del.end, w.ahi, es[0].ins.end, w.bhi), es[1..]);
      assert es == [es[0]] + es[1..];
    }
  }

  /** Where the first edit of a script starts, or where its window ends. */
  function FirstOld(w: Window, es: seq<Edit>): nat {
    if es == [] then w.ahi else es[0].del.start
  }

  function FirstNew(w: Window, es: seq<Edit>): nat {
    if es == [] then w.bhi else es[0].ins.start
  }

  /** A script may start later inside its first gap. */
  lemma ScriptStartsLater<T>(a: seq<T>, b: seq<T>, w: Window, es: seq<Edit>, p: nat, q: nat)
    requires w.In(a, b) && Script(a, b, w, es)
    requires w.alo <= p <= FirstOld(w, es) && w.blo <= q && p - w.alo == q - w.blo
    ensures q <= FirstNew(w, es) && Window(p, w.ahi, q, w.bhi).In(a, b)
    ensures Script(a, b, Window(p, w.ahi, q, w.bhi), es)
  {
    var u, v := FirstOld(w, es), FirstNew(w, es);
    SameRunLength(a, w.alo, u, b, w.blo, v);
    CutRun(a, w.alo, p, u, b, w.blo, q, v);
  }

  /** A script splits into a script up to the end of an edit and a script from there. */
  lemma {:induction false} ScriptSplit<T>(a: seq<T>, b: seq<T>, w: Window, es: seq<Edit>, fs: seq<Edit>)
    requires w.In(a, b) && es != [] && Script(a, b, w, es + fs)
    ensures var l := es[|es| - 1];
            && w.alo <= l.del.end <= w.ahi && w.blo <= l.ins.end <= w.bhi
            && Script(a, b, Window(w.alo, l.del.end, w.blo, l.ins.end), es)
            && Script(a, b, Window(l.del.end, w.ahi, l.ins.end, w.bhi), fs)
    decreases |es|
  {
    var e := es[0];
    assert (es + fs)[1..] == es[1..] + fs;
    if |es| == 1 {
      EmptyRun(a, e.del.end, b, e.ins.end);
      assert es[1..] + fs == fs;
    } else {
      ScriptSplit(a, b, Window(e.del.end, w.ahi, e.ins.end, w.bhi), es[1..], fs);
    }
  }
}
