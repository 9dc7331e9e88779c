/** Lines (crates/alt-diff/src/lib.rs, `split_lines`). */
module Lines {
  import opened Octets

  /** A line keeps its trailing newline; the last line of a buffer may lack one. */
  type Line = Bytes

  const NEWLINE: Byte := 10

  function Concat(lines: seq<Line>): Bytes {
    if lines == [] then [] else Concat(lines[..|lines| - 1]) + lines[|lines| - 1]
  }

  predicate EndsWithNewline(s: Bytes) {
    s != [] && s[|s| - 1] == NEWLINE
  }

  /** `l` is one line that ends in its only newline. */
  predicate Terminated(l: Line) {
    EndsWithNewline(l) && NEWLINE !in l[..|l| - 1]
  }

  /** How a buffer falls into lines: all terminated, except that the last may be a nonempty rest. */
  ghost predicate AreLines(lines: seq<Line>) {
    forall k :: 0 <= k < |lines| ==>
      Terminated(lines[k]) || (k == |lines| - 1 && lines[k] != [] && NEWLINE !in lines[k])
  }

  lemma {:induction false} ConcatSplits(xs: seq<Line>, ys: seq<Line>)
    ensures Concat(xs + ys) == Concat(xs) + Concat(ys)
    decreases |ys|
  {
    if ys == [] {
      assert xs + ys == xs;
    } else {
      var n := |ys| - 1;
      assert (xs + ys)[..|xs| + n] == xs + ys[..n];
      ConcatSplits(xs, ys[..n]);
    }
  }

  lemma ConcatOne(l: Line)
    ensures Concat([l]) == l
  {
    assert [l][..0] == [];
  }

  /** A buffer falls into lines in one way only. */
  lemma {:induction false} LinesAreUnique(xs: seq<Line>, ys: seq<Line>)
    requires AreLines(xs) && AreLines(ys) && Concat(xs) == Concat(ys)
    ensures xs == ys
    decreases |xs|
  {
    if xs == [] || ys == [] {
      assert Concat([]) == [];
      if xs != [] {
        NonemptyConcat(xs);
      } else if ys != [] {
        NonemptyConcat(ys);
      }
    } else {
      assert xs == [xs[0]] + xs[1..] && ys == [ys[0]] + ys[1..];
      ConcatSplits([xs[0]], xs[1..]);
      ConcatSplits([ys[0]], ys[1..]);
      ConcatOne(xs[0]);
      ConcatOne(ys[0]);
      var p, q, r, t := xs[0], Concat(xs[1..]), ys[0], Concat(ys[1..]);
      FirstLineLengthOf(p, q);
      FirstLineLengthOf(r, t);
      assert p == (p + q)[..|p|] && r == (r + t)[..|r|];
      assert q == (p + q)[|p|..] && t == (r + t)[|r|..];
      LinesAreUnique(xs[1..], ys[1..]);
    }
  }

  lemma NonemptyConcat(xs: seq<Line>)
    requires AreLines(xs) && xs != []
    ensures Concat(xs) != []
  {
  }

  /** The length of the first line of a buffer. */
  function FirstLineLength(s: Bytes): nat {
    if s == [] then 0 else if s[0] == NEWLINE then 1 else 1 + FirstLineLength(s[1..])
  }

  lemma {:induction false} FirstLineLengthOf(p: Line, q: Bytes)
    requires p != [] && (Terminated(p) || (q == [] && NEWLINE !in p))
    ensures FirstLineLength(p + q) == |p|
    decreases |p|
  {
    assert (p + q)[1..] == p[1..] + q;
    if |p| == 1 {
      assert p[0] == NEWLINE || q == [];
    } else {
      assert p[0] == p[..|p| - 1][0];
      assert p[1..][..|p| - 2] == p[..|p| - 1][1..];
      FirstLineLengthOf(p[1..], q);
    }
  }

  /** The lines of a buffer, cut off one at a time at the front. */
  function LinesOf(data: Bytes): seq<Line>
    decreases |data|
  {
    if data == [] then []
    else
      var n := FirstLineLength(data);
      FirstLineIsLine(data);
      [data[..n]] + LinesOf(data[n..])
  }

  lemma {:induction false} FirstLineIsLine(data: Bytes)
    requires data != []
    ensures var n := FirstLineLength(data);
            && 0 < n <= |data|
            && (Terminated(data[..n]) || (n == |data| && NEWLINE !in data))
    decreases |data|
  {
    var n := FirstLineLength(data);
    if data[0] != NEWLINE && |data| > 1 {
      FirstLineIsLine(data[1..]);
      assert data[..n][..n - 1] == [data[0]] + data[1..][..n - 1][..n - 2];
      assert data == [data[0]] + data[1..];
    }
  }

  lemma {:induction false} LinesOfAreLines(data: Bytes)
    ensures AreLines(LinesOf(data)) && Concat(LinesOf(data)) == data
    decreases |data|
  {
    if data != [] {
      var n := FirstLineLength(data);
      FirstLineIsLine(data);
      LinesOfAreLines(data[n..]);
      assert n == |data| ==> data[..n] == data && data[n..] == [];
      assert LinesOf(data) == [data[..n]] + LinesOf(data[n..]);
      hide AreLines, Concat;
      ConsIsLines(data[..n], LinesOf(data[n..]));
      assert data == data[..n] + data[n..];
    }
  }

  lemma ConsIsLines(l: Line, rest: seq<Line>)
    requires AreLines(rest) && (Terminated(l) || (rest == [] && l != [] && NEWLINE !in l))
    ensures AreLines([l] + rest) && Concat([l] + rest) == l + Concat(rest)
  {
    ConcatSplits([l], rest);
    ConcatOne(l);
  }

  lemma PushPiece(lines: seq<Line>, data: Bytes, start: nat, end: nat)
    requires start <= end <= |data| && Concat(lines) == data[..start]
    ensures Concat(lines + [data[start..end]]) == data[..end]
  {
    ConcatSplits(lines, [data[start..end]]);
    ConcatOne(data[start..end]);
    assert data[..end] == data[..start] + data[start..end];
  }

  /** Splits `data` into lines: the pieces are lines and concatenate to `data`. */
  method SplitLines(data: Bytes) returns (lines: seq<Line>)
    ensures AreLines(lines) && Concat(lines) == data
    ensures lines == LinesOf(data)
  {
    lines := [];
    var start := 0;
    assert data[..0] == Concat([]);
    hide Concat;
    for i := 0 to |data|
      invariant 0 <= start <= i
      invariant forall k :: 0 <= k < |lines| ==> Terminated(lines[k])
      invariant Concat(lines) == data[..start]
      invariant NEWLINE !in data[start..i]
    {
      if data[i] == NEWLINE {
        PushPiece(lines, data, start, i + 1);
        assert data[start..i + 1][..i - start] == data[start..i];
        lines := lines + [data[start..i + 1]];
        start := i + 1;
      }
    }
    if start < |data| {
      PushPiece(lines, data, start, |data|);
      assert data[start..|data|] == data[start..];
      lines := lines + [data[start..]];
    }
    assert data[..|data|] == data;
    LinesOfAreLines(data);
    LinesAreUnique(lines, LinesOf(data));
  }
}
