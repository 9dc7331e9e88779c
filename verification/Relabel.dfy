/** The histogram diff looks at its lines only through equality, so diffing the interned
    tokens is diffing the lines themselves (crates/alt-diff/src/lib.rs, `diff_lines`). */
module Relabel {
  import opened EditScript
  import opened Histogram

  /** `x`, `y` have the same equalities as `a`, `b`. */
  ghost predicate SameEqualities<S, T>(a: seq<S>, b: seq<S>, x: seq<T>, y: seq<T>) {
    && |a| == |x| && |b| == |y|
    && (forall i, j :: 0 <= i < |a| && 0 <= j < |b| ==> (a[i] == b[j] <==> x[i] == y[j]))
    && (forall i, j :: 0 <= i < |a| && 0 <= j < |a| ==> (a[i] == a[j] <==> x[i] == x[j]))
  }

  lemma {:induction false} ForwardRelabels<S, T>(a: seq<S>, b: seq<S>, x: seq<T>, y: seq<T>,
                                                 i: nat, ahi: nat, j: nat, bhi: nat)
    requires SameEqualities(a, b, x, y) && i <= ahi <= |a| && j <= bhi <= |b|
    ensures Forward(a, i, ahi, b, j, bhi) == Forward(x, i, ahi, y, j, bhi)
    decreases ahi - i
  {
    if i < ahi && j < bhi {
      ForwardRelabels(a, b, x, y, i + 1, ahi, j + 1, bhi);
    }
  }

  lemma {:induction false} BackwardRelabels<S, T>(a: seq<S>, b: seq<S>, x: seq<T>, y: seq<T>,
                                                  alo: nat, i: nat, blo: nat, j: nat)
    requires SameEqualities(a, b, x, y) && alo <= i <= |a| && blo <= j <= |b|
    ensures Backward(a, alo, i, b, blo, j) == Backward(x, alo, i, y, blo, j)
    decreases i
  {
    if alo < i && blo < j {
      BackwardRelabels(a, b, x, y, alo, i - 1, blo, j - 1);
    }
  }

  lemma {:induction false} OccurrencesRelabel<S, T>(a: seq<S>, x: seq<T>, lo: nat, hi: nat, t: S, u: T)
    requires lo <= hi <= |a| == |x|
    requires forall i :: lo <= i < hi ==> (a[i] == t <==> x[i] == u)
    ensures Occurrences(a, lo, hi, t) == Occurrences(x, lo, hi, u)
    decreases hi
  {
    if lo < hi {
      OccurrencesRelabel(a, x, lo, hi - 1, t, u);
    }
  }

  lemma {:induction false} RarityRelabels<S, T>(a: seq<S>, b: seq<S>, x: seq<T>, y: seq<T>, w: Window, s: nat, e: nat)
    requires SameEqualities(a, b, x, y) && w.alo <= s < e <= w.ahi <= |a|
    ensures Rarity(a, w, s, e) == Rarity(x, w, s, e)
    decreases e
  {
    OccurrencesRelabel(a, x, w.alo, w.ahi, a[e - 1], x[e - 1]);
    if s + 1 < e {
      RarityRelabels(a, b, x, y, w, s, e - 1);
    }
  }

  lemma RunThroughRelabels<S, T>(a: seq<S>, b: seq<S>, x: seq<T>, y: seq<T>, w: Window, ai: nat, bi: nat)
    requires SameEqualities(a, b, x, y) && w.In(a, b)
    requires w.alo <= ai < w.ahi && w.blo <= bi < w.bhi && a[ai] == b[bi]
    ensures RunThrough(a, b, w, ai, bi) == RunThrough(x, y, w, ai, bi)
  {
    var r := RunThrough(a, b, w, ai, bi);
    BackwardRelabels(a, b, x, y, w.alo, ai, w.blo, bi);
    ForwardRelabels(a, b, x, y, ai + 1, w.ahi, bi + 1, w.bhi);
    RarityRelabels(a, b, x, y, w, r.aStart, r.aEnd);
  }

  lemma {:induction false} RowPrefixRelabels<S, T>(a: seq<S>, b: seq<S>, x: seq<T>, y: seq<T>,
                                                   w: Window, bi: nat, k: nat)
    requires SameEqualities(a, b, x, y) && w.In(a, b) && w.blo <= bi < w.bhi
    requires Occurrences(a, w.alo, w.ahi, b[bi]) == Occurrences(x, w.alo, w.ahi, y[bi])
    requires k <= Frequency(a, w, b[bi])
    ensures RowPrefix(a, b, w, bi, k) == RowPrefix(x, y, w, bi, k)
    decreases k
  {
    if k > 0 {
      RowPrefixRelabels(a, b, x, y, w, bi, k - 1);
      RunThroughRelabels(a, b, x, y, w, Occurrences(a, w.alo, w.ahi, b[bi])[k - 1], bi);
    }
  }

  lemma {:induction false} CandidatesRelabel<S, T>(a: seq<S>, b: seq<S>, x: seq<T>, y: seq<T>, w: Window, bi: nat)
    requires SameEqualities(a, b, x, y) && w.In(a, b) && w.blo <= bi <= w.bhi
    ensures Candidates(a, b, w, bi) == Candidates(x, y, w, bi)
    decreases bi
  {
    if w.blo < bi {
      CandidatesRelabel(a, b, x, y, w, bi - 1);
      OccurrencesRelabel(a, x, w.alo, w.ahi, b[bi - 1], y[bi - 1]);
      if Frequency(a, w, b[bi - 1]) <= MAX_CHAIN {
        RowPrefixRelabels(a, b, x, y, w, bi - 1, Frequency(a, w, b[bi - 1]));
      }
    }
  }

  lemma StripRelabels<S, T>(a: seq<S>, b: seq<S>, x: seq<T>, y: seq<T>, w: Window)
    requires SameEqualities(a, b, x, y) && w.In(a, b)
    ensures Strip(a, b, w) == Strip(x, y, w)
  {
    ForwardRelabels(a, b, x, y, w.alo, w.ahi, w.blo, w.bhi);
    var p := Forward(a, w.alo, w.ahi, b, w.blo, w.bhi);
    BackwardRelabels(a, b, x, y, w.alo + p, w.ahi, w.blo + p, w.bhi);
  }

  /** Sequences with the same equalities have the same diff. */
  lemma {:induction false} HistRelabels<S, T>(a: seq<S>, b: seq<S>, x: seq<T>, y: seq<T>, w: Window)
    requires SameEqualities(a, b, x, y) && w.In(a, b)
    ensures Hist(a, b, w) == Hist(x, y, w)
    decreases w.ahi - w.alo
  {
    var v := Strip(a, b, w);
    StripRelabels(a, b, x, y, w);
    if v.alo < v.ahi && v.blo < v.bhi {
      CandidatesRelabel(a, b, x, y, v, v.bhi);
      var lcs := FindLcs(a, b, v);
      if lcs.Some? {
        var r := lcs.value;
        HistAround(a, b, w, v, r);
        HistAround(x, y, w, v, r);
        HistRelabels(a, b, x, y, Window(v.alo, r.aStart, v.blo, r.bStart));
        HistRelabels(a, b, x, y, Window(r.aEnd, v.ahi, r.bEnd, v.bhi));
      }
    }
  }
}
