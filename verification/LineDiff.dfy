/** The line diff (crates/alt-diff/src/lib.rs, `diff_lines` and `coalesce`). */
module LineDiff {
  import opened EditScript
  import opened Histogram
  import opened Lines
  import opened Relabel

  /** The tokens are 32 bits wide, so the interner has room for this many distinct lines. */
  const TOKENS: nat := 0x1_0000_0000

  /** The diff of two line sequences, as a function. */
  function LineScript(a: seq<Line>, b: seq<Line>): seq<Edit> {
    Hist(a, b, Whole(a, b))
  }

  /** What `LineScript` promises: the script is valid, separated and tight. */
  lemma LineScriptIsGood(a: seq<Line>, b: seq<Line>)
    ensures ValidScript(a, b, LineScript(a, b))
    ensures Separated(LineScript(a, b)) && Tight(a, b, LineScript(a, b))
    ensures Apply(a, b, Whole(a, b), LineScript(a, b)) == b
  {
    HistIsScript(a, b, Whole(a, b));
    HistIsSeparated(a, b, Whole(a, b));
    HistIsTight(a, b, Whole(a, b));
    ApplyGivesNew(a, b, Whole(a, b), LineScript(a, b));
  }

  // ---- interning ----

  /** Tokens are handed out as 0, 1, 2, ... and tell lines apart. */
  ghost predicate Interns(table: map<Line, Token>) {
    && (forall l :: l in table ==> (table[l] as int) < |table|)
    && (forall l, m :: l in table && m in table && table[l] == table[m] ==> l == m)
  }

  /** They do as long as there are enough of them. */
  ghost predicate InternsWhileRoom(table: map<Line, Token>) {
    |table| <= TOKENS ==> Interns(table)
  }

  lemma InternsOneMore(table: map<Line, Token>, l: Line)
    requires InternsWhileRoom(table) && l !in table
    ensures InternsWhileRoom(table[l := (|table| % TOKENS) as Token])
  {
    assert |table[l := (|table| % TOKENS) as Token]| == |table| + 1;
  }

  lemma {:induction false} TokensAreFew(table: map<Line, Token>, n: nat)
    requires forall l, m :: l in table && m in table && table[l] == table[m] ==> l == m
    requires forall l :: l in table ==> (table[l] as int) < n
    ensures |table| <= n
    decreases n
  {
    if n > 0 {
      if l :| l in table && table[l] as int == n - 1 {
        TokensAreFew(table - {l}, n - 1);
      } else {
        TokensAreFew(table, n - 1);
      }
    }
  }

  /** With more than 2^32 lines, two different ones get the same token. */
  lemma TooManyLines(table: map<Line, Token>)
    requires |table| > TOKENS
    ensures exists l, m :: l in table && m in table && l != m && table[l] == table[m]
  {
    if forall l, m :: l in table && m in table && table[l] == table[m] ==> l == m {
      TokensAreFew(table, TOKENS);
    }
  }

  /** The token of a line: the one it has, or else the next one, which wraps around. */
  method Intern(line: Line, table0: map<Line, Token>) returns (token: Token, table: map<Line, Token>)
    requires InternsWhileRoom(table0)
    ensures InternsWhileRoom(table) && table.Keys == table0.Keys + {line}
    ensures forall l :: l in table0 ==> table[l] == table0[l]
    ensures token == table[line]
  {
    hide InternsWhileRoom;
    var next := (|table0| % TOKENS) as Token;
    table := table0;
    if line !in table {
      InternsOneMore(table, line);
      table := table[line := next];
    }
    token := table[line];
  }

  /** The different lines of a sequence. */
  ghost function Distinct(lines: seq<Line>): set<Line> {
    set l | l in lines
  }

  /** The tokens are those that the table has for the lines. */
  ghost predicate Interned(lines: seq<Line>, tokens: seq<Token>, table: map<Line, Token>) {
    |tokens| == |lines| && forall k :: 0 <= k < |lines| ==> lines[k] in table && tokens[k] == table[lines[k]]
  }

  method InternLines(lines: seq<Line>, table0: map<Line, Token>) returns (tokens: seq<Token>, table: map<Line, Token>)
    requires InternsWhileRoom(table0)
    ensures InternsWhileRoom(table) && table.Keys == table0.Keys + Distinct(lines)
    ensures forall l :: l in table0 ==> table[l] == table0[l]
    ensures Interned(lines, tokens, table)
  {
    hide InternsWhileRoom;
    tokens, table := [], table0;
    for i := 0 to |lines|
      invariant InternsWhileRoom(table) && table.Keys == table0.Keys + Distinct(lines[..i])
      invariant forall l :: l in table0 ==> table[l] == table0[l]
      invariant |tokens| == i
      invariant forall k :: 0 <= k < i ==> lines[k] in table && tokens[k] == table[lines[k]]
    {
      assert lines[..i + 1] == lines[..i] + [lines[i]];
      var token;
      token, table := Intern(lines[i], table);
      tokens := tokens + [token];
    }
    assert lines[..|lines|] == lines;
  }

  // ---- coalescing ----

  /** The new last edit when `e` touches the one before it. */
  function Extend(last: Edit, e: Edit): Edit {
    Edit(Range(last.del.start, if e.del.end < last.del.end then last.del.end else e.del.end),
         Range(last.ins.start, if e.ins.end < last.ins.end then last.ins.end else e.ins.end))
  }

  function Absorb(out: seq<Edit>, e: Edit): seq<Edit> {
    if e.IsEmpty() then out
    else if out != [] && out[|out| - 1].del.end >= e.del.start && out[|out| - 1].ins.end >= e.ins.start then
      out[|out| - 1 := Extend(out[|out| - 1], e)]
    else out + [e]
  }

  function Coalesced(es: seq<Edit>): seq<Edit> {
    if es == [] then [] else Absorb(Coalesced(es[..|es| - 1]), es[|es| - 1])
  }

  method Coalesce(edits: seq<Edit>) returns (out: seq<Edit>)
    ensures out == Coalesced(edits)
  {
    out := [];
    for i := 0 to |edits|
      invariant out == Coalesced(edits[..i])
    {
      var e := edits[i];
      assert edits[..i + 1][..i] == edits[..i];
      if e.IsEmpty() {
        continue;
      }
      if out != [] && out[|out| - 1].del.end >= e.del.start && out[|out| - 1].ins.end >= e.ins.start {
        out := out[|out| - 1 := Extend(out[|out| - 1], e)];
      } else {
        out := out + [e];
      }
    }
    assert edits[..|edits|] == edits;
  }

  /** No edit is empty. */
  ghost predicate Nonempty(es: seq<Edit>) {
    forall k :: 0 <= k < |es| ==> !es[k].IsEmpty()
  }

  /** `es` is a script for the window up to where its last edit ends. */
  ghost predicate EndsAt<T>(a: seq<T>, b: seq<T>, w: Window, es: seq<Edit>, p: nat, q: nat)
    requires w.In(a, b)
  {
    && w.alo <= p <= w.ahi && w.blo <= q <= w.bhi
    && Script(a, b, Window(w.alo, p, w.blo, q), es)
    && (if es == [] then p == w.alo && q == w.blo else es[|es| - 1].del.end == p && es[|es| - 1].ins.end == q)
  }

  /** Moving the end of the last edit down moves the end of its script. */
  lemma {:induction false} ExtendLast<T>(a: seq<T>, b: seq<T>, w: Window, es: seq<Edit>, p: nat, q: nat, e: Edit)
    requires w.In(a, b) && es != [] && EndsAt(a, b, w, es, p, q)
    requires e.del.start == p <= e.del.end <= w.ahi && e.ins.start == q <= e.ins.end <= w.bhi
    ensures EndsAt(a, b, w, es[|es| - 1 := Extend(es[|es| - 1], e)], e.del.end, e.ins.end)
    decreases |es|
  {
    var n := |es| - 1;
    var fs := es[n := Extend(es[n], e)];
    var rest := Window(es[0].del.end, w.ahi, es[0].ins.end, w.bhi);
    if n > 0 {
      ExtendLast(a, b, rest, es[1..], p, q, e);
      assert fs[1..] == es[1..][n - 1 := Extend(es[n], e)];
    } else {
      EmptyRun(a, p, b, q);
      assert fs == [Extend(es[0], e)];
    }
  }

  /** Coalescing one more edit of a script keeps the script. */
  lemma AbsorbKeepsScript<T>(a: seq<T>, b: seq<T>, w: Window, out: seq<Edit>, p: nat, q: nat, es: seq<Edit>)
    returns (p': nat, q': nat)
    requires w.In(a, b) && es != []
    requires EndsAt(a, b, w, out, p, q)
    requires Script(a, b, Window(p, w.ahi, q, w.bhi), es)
    ensures EndsAt(a, b, w, Absorb(out, es[0]), p', q')
    ensures Script(a, b, Window(p', w.ahi, q', w.bhi), es[1..])
  {
    var e := es[0];
    FirstEdit(a, b, Window(p, w.ahi, q, w.bhi), es);
    hide Script, SameRun;
    if e.IsEmpty() {
      p', q' := p, q;
      ScriptPrepend(a, b, Window(p, w.ahi, q, w.bhi), e.del.end, e.ins.end, es[1..]);
    } else {
      p', q' := e.del.end, e.ins.end;
      if out != [] && p >= e.del.start && q >= e.ins.start {
        ExtendLast(a, b, w, out, p, q, e);
      } else {
        EndsBehind(a, b, w, out, p, q, e);
      }
    }
  }

  lemma FirstEdit<T>(a: seq<T>, b: seq<T>, w: Window, es: seq<Edit>)
    requires w.In(a, b) && es != [] && Script(a, b, w, es)
    ensures var e := es[0];
            && w.alo <= e.del.start <= e.del.end <= w.ahi && w.blo <= e.ins.start <= e.ins.end <= w.bhi
            && SameRun(a, w.alo, e.del.start, b, w.blo, e.ins.start)
            && e.del.start - w.alo == e.ins.start - w.blo
            && Script(a, b, Window(e.del.end, w.ahi, e.ins.end, w.bhi), es[1..])
  {
    SameRunLength(a, w.alo, es[0].del.start, b, w.blo, es[0].ins.start);
  }

  lemma EndsBehind<T>(a: seq<T>, b: seq<T>, w: Window, out: seq<Edit>, p: nat, q: nat, e: Edit)
    requires w.In(a, b) && EndsAt(a, b, w, out, p, q)
    requires p <= e.del.start <= e.del.end <= w.ahi && q <= e.ins.start <= e.ins.end <= w.bhi
    requires SameRun(a, p, e.del.start, b, q, e.ins.start)
    ensures EndsAt(a, b, w, out + [e], e.del.end, e.ins.end)
  {
    EmptyRun(a, e.del.end, b, e.ins.end);
    assert Script(a, b, Window(p, e.del.end, q, e.ins.end), [e]) by {
      assert [e][1..] == [];
    }
    hide Script, SameRun;
    ScriptConcat(a, b, Window(w.alo, e.del.end, w.blo, e.ins.end), p, q, out, [e]);
  }

  /** It also keeps the result separated and without empty edits. */
  lemma AbsorbKeepsSeparated<T>(a: seq<T>, b: seq<T>, w: Window, out: seq<Edit>, p: nat, q: nat, es: seq<Edit>)
    requires w.In(a, b) && es != []
    requires EndsAt(a, b, w, out, p, q) && Separated(out) && Nonempty(out)
    requires Script(a, b, Window(p, w.ahi, q, w.bhi), es)
    ensures Separated(Absorb(out, es[0])) && Nonempty(Absorb(out, es[0]))
  {
    FirstEdit(a, b, Window(p, w.ahi, q, w.bhi), es);
    ScriptBounds(a, b, Window(w.alo, p, w.blo, q), out);
    hide Script, SameRun, Separated, Nonempty, Absorb;
    OneMoreSeparated(out, es[0]);
  }

  lemma OneMoreSeparated(out: seq<Edit>, e: Edit)
    requires Separated(out) && Nonempty(out) && e.del.start <= e.del.end && e.ins.start <= e.ins.end
    requires out == [] || Follows(out[|out| - 1], e)
    ensures Separated(Absorb(out, e)) && Nonempty(Absorb(out, e))
  {
    if out != [] && !e.IsEmpty() {
      var last := |out| - 1;
      assert forall i :: 0 <= i < last ==> out[i].del.end < out[last].del.start && out[i].ins.end < out[last].ins.start;
    }
  }

  /** `e` stands behind `last`, with as many lines in between on both sides. */
  predicate Follows(last: Edit, e: Edit) {
    && last.del.start <= last.del.end <= e.del.start && last.ins.start <= last.ins.end <= e.ins.start
    && e.del.start - last.del.end == e.ins.start - last.ins.end
  }

  /** `Coalesced` peels edits off the back; this peels them off the front. */
  function AbsorbAll(out: seq<Edit>, es: seq<Edit>): seq<Edit>
    decreases |es|
  {
    if es == [] then out else AbsorbAll(Absorb(out, es[0]), es[1..])
  }

  lemma {:induction false} AbsorbAllSnoc(out: seq<Edit>, es: seq<Edit>)
    requires es != []
    ensures AbsorbAll(out, es) == Absorb(AbsorbAll(out, es[..|es| - 1]), es[|es| - 1])
    decreases |es|
  {
    if |es| > 1 {
      AbsorbAllSnoc(Absorb(out, es[0]), es[1..]);
      assert es[1..][..|es| - 2] == es[..|es| - 1][1..];
    }
  }

  lemma {:induction false} CoalescedIsAbsorbAll(es: seq<Edit>)
    ensures Coalesced(es) == AbsorbAll([], es)
    decreases |es|
  {
    if es != [] {
      CoalescedIsAbsorbAll(es[..|es| - 1]);
      AbsorbAllSnoc([], es);
    }
  }

  lemma {:induction false} AbsorbAllKeeps<T>(a: seq<T>, b: seq<T>, w: Window, out: seq<Edit>, p: nat, q: nat, es: seq<Edit>)
    requires w.In(a, b)
    requires EndsAt(a, b, w, out, p, q) && Separated(out) && Nonempty(out)
    requires Script(a, b, Window(p, w.ahi, q, w.bhi), es)
    ensures Script(a, b, w, AbsorbAll(out, es))
    ensures Separated(AbsorbAll(out, es)) && Nonempty(AbsorbAll(out, es))
    decreases |es|
  {
    if es == [] {
      ScriptAppend(a, b, w, p, q, out);
    } else {
      var p', q' := AbsorbKeepsScript(a, b, w, out, p, q, es);
      AbsorbKeepsSeparated(a, b, w, out, p, q, es);
      AbsorbAllKeeps(a, b, w, Absorb(out, es[0]), p', q', es[1..]);
    }
  }

  /** Coalescing a valid script gives a valid script for the same pair, with no empty edits
      and at least one equal line between any two. */
  lemma CoalesceKeepsMeaning<T>(a: seq<T>, b: seq<T>, w: Window, es: seq<Edit>)
    requires w.In(a, b)
    requires Script(a, b, w, es)
    ensures Script(a, b, w, Coalesced(es))
    ensures Separated(Coalesced(es)) && Nonempty(Coalesced(es))
  {
    CoalescedIsAbsorbAll(es);
    AbsorbAllKeeps(a, b, w, [], w.alo, w.blo, es);
  }

  /** A script that is already separated and has no empty edits is left alone. */
  lemma {:induction false} CoalesceIsIdempotent(es: seq<Edit>)
    requires Separated(es) && Nonempty(es)
    ensures Coalesced(es) == es
    decreases |es|
  {
    if es != [] {
      var n := |es| - 1;
      CoalesceIsIdempotent(es[..n]);
      assert n > 0 ==> es[..n][n - 1].del.end < es[n].del.start;
      assert es == es[..n] + [es[n]];
    }
  }

  // ---- the whole diff ----

  /** The tokens are enough for the lines of both sides. */
  ghost predicate EnoughTokens(a: seq<Line>, b: seq<Line>) {
    |Distinct(a) + Distinct(b)| <= TOKENS
  }

  /** `edits` is a script for sequences of these lengths. */
  ghost predicate FitsLengths(edits: seq<Edit>, a: seq<Line>, b: seq<Line>) {
    exists at: seq<Token>, bt: seq<Token> :: |at| == |a| && |bt| == |b| && ValidScript(at, bt, edits)
  }

  /** Interns the lines, diffs the tokens and coalesces: the result is the diff of the lines, as
      long as there are tokens enough for the different ones. */
  method DiffLines(a: seq<Line>, b: seq<Line>) returns (edits: seq<Edit>)
    ensures EnoughTokens(a, b) ==> edits == LineScript(a, b)
    ensures FitsLengths(edits, a, b)
  {
    assert InternsWhileRoom(map[]);
    hide *;
    var at, table := InternLines(a, map[]);
    var bt, table' := InternLines(b, table);
    WindowIsWhole(at, bt);
    var raw := Diff(at, bt, Window(0, |at|, 0, |bt|), []);
    edits := Coalesce(raw);
    assert [] + Hist(at, bt, Whole(at, bt)) == Hist(at, bt, Whole(at, bt));
    InternedLater(a, at, table, table');
    TokensFit(a, b, at, bt, table', raw);
    if EnoughTokens(a, b) {
      TokensTell(a, b, at, bt, table');
      RawIsLineScript(a, b, at, bt, raw);
    }
  }

  lemma WindowIsWhole(at: seq<Token>, bt: seq<Token>)
    ensures Window(0, |at|, 0, |bt|) == Whole(at, bt) && Whole(at, bt).In(at, bt)
  {
  }

  lemma InternedLater(lines: seq<Line>, tokens: seq<Token>, table: map<Line, Token>, table': map<Line, Token>)
    requires Interned(lines, tokens, table) && table'.Keys >= table.Keys && forall l :: l in table ==> table'[l] == table[l]
    ensures Interned(lines, tokens, table')
  {
  }

  lemma TokensFit(a: seq<Line>, b: seq<Line>, at: seq<Token>, bt: seq<Token>, table: map<Line, Token>, raw: seq<Edit>)
    requires Interned(a, at, table) && Interned(b, bt, table) && raw == Hist(at, bt, Whole(at, bt))
    ensures FitsLengths(Coalesced(raw), a, b)
  {
    HistIsScript(at, bt, Whole(at, bt));
    CoalesceKeepsMeaning(at, bt, Whole(at, bt), raw);
    hide Hist, Coalesced, Script;
    assert ValidScript(at, bt, Coalesced(raw));
  }

  lemma TokensTell(a: seq<Line>, b: seq<Line>, at: seq<Token>, bt: seq<Token>, table: map<Line, Token>)
    requires InternsWhileRoom(table) && EnoughTokens(a, b) && table.Keys == Distinct(a) + Distinct(b)
    requires Interned(a, at, table) && Interned(b, bt, table)
    ensures SameEqualities(a, b, at, bt)
  {
    assert |table| == |table.Keys|;
  }

  /** The diff of tokens that tell the lines apart is the diff of the lines. */
  lemma RawIsLineScript(a: seq<Line>, b: seq<Line>, at: seq<Token>, bt: seq<Token>, raw: seq<Edit>)
    requires SameEqualities(a, b, at, bt) && raw == Hist(at, bt, Whole(at, bt))
    ensures Coalesced(raw) == LineScript(a, b)
  {
    HistRelabels(a, b, at, bt, Whole(a, b));
    LineScriptIsGood(a, b);
    hide Hist, SameEqualities;
    CoalesceIsIdempotent(raw);
  }
}
