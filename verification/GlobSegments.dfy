// What a glob string means in path segments (crates/alt-cli/src/policy.rs).
//
// A `**` stands for any number of path segments, the slashes next to it included: `a/**/b` for `a/b`,
// `a/x/b` and `a/x/y/b`. The parts that a string is compiled to forget which slashes a `**` took
// along. So they match whatever the string means, but more: `a/**/b` also matches `ab`.
module GlobSegments {
  import opened Glob
  import opened GlobPattern
  import opened Octets

  const OTHER: Byte := 120

  /** A piece of a pattern. A `**` knows whether it took a slash on its left and on its right. */
  datatype Piece = Text(text: Bytes) | OneSegment | Deep(left: bool, right: bool)

  // ---- what a string means ----

  function FlushText(buf: Bytes): seq<Piece> {
    if buf == [] then [] else [Text(buf)]
  }

  predicate EndsInSlash(buf: Bytes) {
    buf != [] && buf[|buf| - 1] == SLASH
  }

  predicate StartsWithSlash(pat: Bytes) {
    pat != [] && pat[0] == SLASH
  }

  /** The pieces of `pat` with the literal `buf` already read. */
  function PiecesOf(pat: Bytes, buf: Bytes): seq<Piece>
    decreases |pat|
  {
    if pat == [] then FlushText(buf)
    else if IsDouble(pat) then
      FlushText(DropSlash(buf)) + [Deep(EndsInSlash(buf), StartsWithSlash(pat[2..]))] + PiecesOf(SkipSlash(pat[2..]), [])
    else if pat[0] == STAR then FlushText(buf) + [OneSegment] + PiecesOf(pat[1..], [])
    else PiecesOf(pat[1..], buf + AsChar(pat[0]))
  }

  /** What a `**` may stand for. Between two slashes it is at least the slash that both share. */
  predicate IsSpan(left: bool, right: bool, w: Bytes) {
    if w == [] then !(left && right) else (left ==> w[0] == SLASH) && (right ==> w[|w| - 1] == SLASH)
  }

  ghost predicate Means(pieces: seq<Piece>, input: Bytes)
    decreases |pieces|, 0
  {
    if pieces == [] then input == []
    else
      match pieces[0]
      case Text(text) => StartsWith(input, text) && Means(pieces[1..], input[|text|..])
      case OneSegment => exists k :: 1 <= k <= Segment(input) && MeansFrom(pieces[1..], input, k)
      case Deep(left, right) => exists k :: 0 <= k <= |input| && IsSpan(left, right, input[..k]) && MeansFrom(pieces[1..], input, k)
  }

  ghost predicate MeansFrom(pieces: seq<Piece>, input: Bytes, k: nat)
    requires k <= |input|
    decreases |pieces|, 1
  {
    Means(pieces, input[k..])
  }

  /** The input is one of those that the string `pat` stands for. */
  ghost predicate PatternMeans(pat: Bytes, input: Bytes) {
    Means(PiecesOf(pat, []), input)
  }

  // ---- spans are segments ----

  predicate Slashless(segs: seq<Bytes>) {
    forall k :: 0 <= k < |segs| ==> SLASH !in segs[k]
  }

  /** The segments in a row, each with a slash behind it. */
  function Laid(segs: seq<Bytes>): Bytes {
    if segs == [] then [] else segs[0] + [SLASH] + Laid(segs[1..])
  }

  /** The segments in a row, each with a slash before it. */
  function Hung(segs: seq<Bytes>): Bytes {
    if segs == [] then [] else [SLASH] + segs[0] + Hung(segs[1..])
  }

  lemma {:induction false} LaidEnds(segs: seq<Bytes>)
    ensures Laid(segs) == [] || EndsInSlash(Laid(segs))
    decreases |segs|
  {
    if segs != [] {
      LaidEnds(segs[1..]);
    }
  }

  lemma {:induction false} SplitLaid(w: Bytes) returns (segs: seq<Bytes>)
    requires w == [] || EndsInSlash(w)
    ensures Slashless(segs) && w == Laid(segs)
    decreases |w|
  {
    segs := [];
    if w != [] {
      var n := Segment(w);
      assert n < |w|;
      var rest := SplitLaid(w[n + 1..]);
      segs := [w[..n]] + rest;
      assert segs[1..] == rest;
      assert w == w[..n] + [SLASH] + w[n + 1..];
    }
  }

  lemma {:induction false} SplitHung(w: Bytes) returns (segs: seq<Bytes>)
    requires w == [] || w[0] == SLASH
    ensures Slashless(segs) && w == Hung(segs)
    decreases |w|
  {
    segs := [];
    if w != [] {
      var n := Segment(w[1..]);
      var rest := SplitHung(w[n + 1..]);
      segs := [w[1..n + 1]] + rest;
      assert segs[1..] == rest;
      assert w == [SLASH] + w[1..n + 1] + w[n + 1..];
    }
  }

  /** A `**` stands for any number of segments with the slashes between them, and with those next to
      it that it took along. */
  lemma SpansAreSegments(left: bool, right: bool, w: Bytes)
    requires left || right
    ensures IsSpan(left, right, w) <==> exists segs ::
              Slashless(segs) && w == if left && right then [SLASH] + Laid(segs) else if left then Hung(segs) else Laid(segs)
  {
    if segs :| Slashless(segs) && w == if left && right then [SLASH] + Laid(segs) else if left then Hung(segs) else Laid(segs) {
      LaidEnds(segs);
    }
    if IsSpan(left, right, w) {
      if left && right {
        var segs := SplitLaid(w[1..]);
        assert w == [SLASH] + Laid(segs);
      } else if left {
        var segs := SplitHung(w);
      } else {
        var segs := SplitLaid(w);
      }
    }
  }

  // ---- the parts match whatever the string means ----

  function PartOf(p: Piece): Part {
    match p
    case Text(text) => Lit(text)
    case OneSegment => AnySegment
    case Deep(_, _) => AnyChars
  }

  function Forgotten(pieces: seq<Piece>): seq<Part> {
    if pieces == [] then [] else [PartOf(pieces[0])] + Forgotten(pieces[1..])
  }

  lemma {:induction false} ForgottenBoth(a: seq<Piece>, b: seq<Piece>)
    ensures Forgotten(a + b) == Forgotten(a) + Forgotten(b)
    decreases |a|
  {
    if a == [] {
      assert a + b == b;
    } else {
      assert (a + b)[1..] == a[1..] + b;
      ForgottenBoth(a[1..], b);
    }
  }

  lemma ForgottenBehind(buf: Bytes, p: Piece, rest: seq<Piece>)
    ensures Forgotten(FlushText(buf) + [p] + rest) == Flush(buf) + [PartOf(p)] + Forgotten(rest)
  {
    ForgottenBoth(FlushText(buf) + [p], rest);
    ForgottenBoth(FlushText(buf), [p]);
    assert [p][1..] == [] && [Text(buf)][1..] == [];
  }

  /** Compiling keeps the pieces, but for the slashes. */
  lemma {:induction false} CompiledForgets(pat: Bytes, buf: Bytes)
    ensures PartsOf(pat, buf) == Forgotten(PiecesOf(pat, buf))
    decreases |pat|
  {
    hide Forgotten, AsChar;
    if pat == [] {
      ForgottenText(buf);
    } else if IsDouble(pat) {
      CompiledForgets(SkipSlash(pat[2..]), []);
      ForgottenBehind(DropSlash(buf), Deep(EndsInSlash(buf), StartsWithSlash(pat[2..])), PiecesOf(SkipSlash(pat[2..]), []));
    } else if pat[0] == STAR {
      CompiledForgets(pat[1..], []);
      ForgottenBehind(buf, OneSegment, PiecesOf(pat[1..], []));
    } else {
      CompiledForgets(pat[1..], buf + AsChar(pat[0]));
    }
  }

  lemma ForgottenText(buf: Bytes)
    ensures Forgotten(FlushText(buf)) == Flush(buf)
  {
    assert [Text(buf)][1..] == [];
  }

  /** Whatever the pieces mean, their parts match. */
  lemma {:induction false} MeantIsMatched(pieces: seq<Piece>, input: Bytes)
    requires Means(pieces, input)
    ensures Matches(Forgotten(pieces), input)
    decreases |pieces|
  {
    if pieces != [] {
      assert Forgotten(pieces)[1..] == Forgotten(pieces[1..]);
      match pieces[0]
      case Text(text) => MeantIsMatched(pieces[1..], input[|text|..]);
      case OneSegment =>
        var k :| 1 <= k <= Segment(input) && MeansFrom(pieces[1..], input, k);
        MeantIsMatched(pieces[1..], input[k..]);
        assert MatchesFrom(Forgotten(pieces)[1..], input, k);
      case Deep(left, right) =>
        var k :| 0 <= k <= |input| && IsSpan(left, right, input[..k]) && MeansFrom(pieces[1..], input, k);
        MeantIsMatched(pieces[1..], input[k..]);
        assert MatchesFrom(Forgotten(pieces)[1..], input, k);
    }
  }

  /** No `**` took a slash along. */
  predicate NoneTookSlash(pieces: seq<Piece>) {
    forall k :: 0 <= k < |pieces| && pieces[k].Deep? ==> !pieces[k].left && !pieces[k].right
  }

  lemma {:induction false} MatchedIsMeant(pieces: seq<Piece>, input: Bytes)
    requires Matches(Forgotten(pieces), input) && NoneTookSlash(pieces)
    ensures Means(pieces, input)
    decreases |pieces|
  {
    if pieces != [] {
      assert Forgotten(pieces)[1..] == Forgotten(pieces[1..]);
      match pieces[0]
      case Text(text) => MatchedIsMeant(pieces[1..], input[|text|..]);
      case OneSegment =>
        var k :| 1 <= k <= Segment(input) && MatchesFrom(Forgotten(pieces)[1..], input, k);
        MatchedIsMeant(pieces[1..], input[k..]);
        assert MeansFrom(pieces[1..], input, k);
      case Deep(_, _) =>
        var k :| 0 <= k <= |input| && MatchesFrom(Forgotten(pieces)[1..], input, k);
        MatchedIsMeant(pieces[1..], input[k..]);
        assert MeansFrom(pieces[1..], input, k);
    }
  }

  // ---- and more ----

  function Slashes(w: Bytes): nat {
    if w == [] then 0 else (if w[0] == SLASH then 1 else 0) + Slashes(w[1..])
  }

  lemma {:induction false} SlashesAdd(v: Bytes, w: Bytes)
    ensures Slashes(v + w) == Slashes(v) + Slashes(w)
    decreases |v|
  {
    if v == [] {
      assert v + w == w;
    } else {
      assert (v + w)[1..] == v[1..] + w;
      SlashesAdd(v[1..], w);
    }
  }

  lemma SlashesSplit(w: Bytes, k: nat)
    requires k <= |w|
    ensures Slashes(w) == Slashes(w[..k]) + Slashes(w[k..])
  {
    SlashesAdd(w[..k], w[k..]);
    assert w[..k] + w[k..] == w;
  }

  /** The pattern with one byte for each `*` and nothing for each `**`. */
  function Bare(pieces: seq<Piece>): Bytes {
    if pieces == [] then []
    else
      (match pieces[0]
       case Text(text) => text
       case OneSegment => [OTHER]
       case Deep(_, _) => []) + Bare(pieces[1..])
  }

  /** How many `**` stand between slashes. */
  function Between(pieces: seq<Piece>): nat {
    if pieces == [] then 0 else (if pieces[0] == Deep(true, true) then 1 else 0) + Between(pieces[1..])
  }

  lemma {:induction false} BareIsMatched(pieces: seq<Piece>)
    ensures Matches(Forgotten(pieces), Bare(pieces))
    decreases |pieces|
  {
    if pieces != [] {
      BareIsMatched(pieces[1..]);
      var input, rest := Bare(pieces), Bare(pieces[1..]);
      assert Forgotten(pieces)[1..] == Forgotten(pieces[1..]);
      match pieces[0]
      case Text(text) => assert input[|text|..] == rest && input[..|text|] == text;
      case OneSegment =>
        assert input[1..] == rest;
        assert MatchesFrom(Forgotten(pieces)[1..], input, 1);
      case Deep(_, _) =>
        assert input[0..] == rest;
        assert MatchesFrom(Forgotten(pieces)[1..], input, 0);
    }
  }

  /** Whatever the pattern means has all its slashes, and one for each `**` between slashes. */
  lemma {:induction false} SlashesNeeded(pieces: seq<Piece>, input: Bytes)
    requires Means(pieces, input)
    ensures Slashes(input) >= Slashes(Bare(pieces)) + Between(pieces)
    decreases |pieces|
  {
    if pieces != [] {
      var rest := Bare(pieces[1..]);
      match pieces[0]
      case Text(text) =>
        SlashesNeeded(pieces[1..], input[|text|..]);
        SlashesSplit(input, |text|);
        SlashesAdd(text, rest);
      case OneSegment =>
        var k :| 1 <= k <= Segment(input) && MeansFrom(pieces[1..], input, k);
        SlashesNeeded(pieces[1..], input[k..]);
        SlashesSplit(input, k);
        SlashesAdd([OTHER], rest);
      case Deep(left, right) =>
        var k :| 0 <= k <= |input| && IsSpan(left, right, input[..k]) && MeansFrom(pieces[1..], input, k);
        SlashesNeeded(pieces[1..], input[k..]);
        SlashesSplit(input, k);
        assert [] + rest == rest;
    }
  }

  /** A `**` between slashes is matched by nothing at all, though it does not mean that. */
  lemma BetweenMatchesMore(pieces: seq<Piece>)
    requires Between(pieces) > 0
    ensures Matches(Forgotten(pieces), Bare(pieces)) && !Means(pieces, Bare(pieces))
  {
    BareIsMatched(pieces);
    if Means(pieces, Bare(pieces)) {
      SlashesNeeded(pieces, Bare(pieces));
    }
  }

  /** Every `**` took a slash along, and there is no `*`. */
  predicate OnlySlashedDeeps(pieces: seq<Piece>) {
    forall k :: 0 <= k < |pieces| ==> match pieces[k] case Text(_) => true case OneSegment => false case Deep(l, r) => l || r
  }

  /** The bare pattern with one byte more for the first `**`. */
  function Stuffed(pieces: seq<Piece>): Bytes {
    if pieces == [] then []
    else
      match pieces[0]
      case Text(text) => text + Stuffed(pieces[1..])
      case OneSegment => [OTHER] + Stuffed(pieces[1..])
      case Deep(_, _) => [OTHER] + Bare(pieces[1..])
  }

  lemma {:induction false} StuffedIsMatched(pieces: seq<Piece>, d: nat)
    requires d < |pieces| && pieces[d].Deep?
    ensures Matches(Forgotten(pieces), Stuffed(pieces))
    ensures |Stuffed(pieces)| == |Bare(pieces)| + 1 && Slashes(Stuffed(pieces)) == Slashes(Bare(pieces))
    decreases |pieces|
  {
    var input := Stuffed(pieces);
    assert Forgotten(pieces)[1..] == Forgotten(pieces[1..]);
    match pieces[0]
    case Text(text) =>
      StuffedIsMatched(pieces[1..], d - 1);
      SlashesAdd(text, Stuffed(pieces[1..]));
      SlashesAdd(text, Bare(pieces[1..]));
      assert input[|text|..] == Stuffed(pieces[1..]) && input[..|text|] == text;
    case OneSegment =>
      StuffedIsMatched(pieces[1..], d - 1);
      SlashesAdd([OTHER], Stuffed(pieces[1..]));
      SlashesAdd([OTHER], Bare(pieces[1..]));
      assert input[1..] == Stuffed(pieces[1..]);
      assert MatchesFrom(Forgotten(pieces)[1..], input, 1);
    case Deep(_, _) =>
      BareIsMatched(pieces[1..]);
      SlashesAdd([OTHER], Bare(pieces[1..]));
      assert input[1..] == Bare(pieces[1..]) == Bare(pieces);
      assert MatchesFrom(Forgotten(pieces)[1..], input, 1);
  }

  lemma SpanHasSlash(left: bool, right: bool, w: Bytes)
    requires IsSpan(left, right, w) && (left || right) && w != []
    ensures Slashes(w) > 0
  {
    SlashesSplit(w, |w| - 1);
  }

  /** With no more slashes than the pattern has, a `**` that took one along stands for nothing. */
  lemma {:induction false} NoSlashNoSpan(pieces: seq<Piece>, input: Bytes)
    requires Means(pieces, input) && OnlySlashedDeeps(pieces) && Slashes(input) <= Slashes(Bare(pieces))
    ensures |input| == |Bare(pieces)|
    decreases |pieces|
  {
    if pieces != [] {
      var rest := Bare(pieces[1..]);
      match pieces[0]
      case Text(text) =>
        SlashesSplit(input, |text|);
        SlashesAdd(text, rest);
        NoSlashNoSpan(pieces[1..], input[|text|..]);
      case Deep(left, right) =>
        var k :| 0 <= k <= |input| && IsSpan(left, right, input[..k]) && MeansFrom(pieces[1..], input, k);
        SlashesNeeded(pieces[1..], input[k..]);
        SlashesSplit(input, k);
        assert Bare(pieces) == rest;
        if k > 0 {
          SpanHasSlash(left, right, input[..k]);
        }
        NoSlashNoSpan(pieces[1..], input[k..]);
    }
  }

  // ---- when they agree ----

  /** The parts that the string is compiled to match what the string means, and nothing else. */
  ghost predicate PartsAgree(pat: Bytes) {
    forall input :: Matches(Compiled(pat), input) <==> PatternMeans(pat, input)
  }

  /** The parts match whatever the string means. They match nothing else if no `**` took a slash
      along, and more if one stands between slashes. Where each `**` has a slash at its side and
      there is no `*`, they agree if and only if there is no `**`. */
  lemma WhenPartsAgree(pat: Bytes)
    ensures forall input :: PatternMeans(pat, input) ==> Matches(Compiled(pat), input)
    ensures NoneTookSlash(PiecesOf(pat, [])) ==> PartsAgree(pat)
    ensures Between(PiecesOf(pat, [])) > 0 ==> !PartsAgree(pat)
    ensures OnlySlashedDeeps(PiecesOf(pat, [])) ==> (PartsAgree(pat) <==> NoneTookSlash(PiecesOf(pat, [])))
  {
    var pieces := PiecesOf(pat, []);
    CompiledForgets(pat, []);
    hide Matches, Means, Forgotten, PiecesOf, Bare, Stuffed;
    forall input
      ensures Means(pieces, input) ==> Matches(Forgotten(pieces), input)
      ensures NoneTookSlash(pieces) && Matches(Forgotten(pieces), input) ==> Means(pieces, input)
    {
      if Means(pieces, input) {
        MeantIsMatched(pieces, input);
      } else if NoneTookSlash(pieces) && Matches(Forgotten(pieces), input) {
        MatchedIsMeant(pieces, input);
      }
    }
    if Between(pieces) > 0 {
      BetweenMatchesMore(pieces);
      assert Matches(Compiled(pat), Bare(pieces)) && !PatternMeans(pat, Bare(pieces));
    }
    if d :| 0 <= d < |pieces| && pieces[d].Deep? {
      if OnlySlashedDeeps(pieces) {
        StuffedIsMatched(pieces, d);
        if Means(pieces, Stuffed(pieces)) {
          NoSlashNoSpan(pieces, Stuffed(pieces));
        }
        assert Matches(Compiled(pat), Stuffed(pieces)) && !PatternMeans(pat, Stuffed(pieces));
      }
    }
  }

  lemma CharIsRead(c: Byte, more: Bytes, buf: Bytes)
    requires c < 128 && c != STAR
    ensures PiecesOf([c] + more, buf) == PiecesOf(more, buf + [c])
  {
    assert ([c] + more)[1..] == more;
  }

  lemma DeepIsRead(more: Bytes, buf: Bytes)
    ensures PiecesOf([STAR, STAR] + more, buf + [SLASH]) ==
              FlushText(buf) + [Deep(true, StartsWithSlash(more))] + PiecesOf(SkipSlash(more), [])
  {
    assert ([STAR, STAR] + more)[2..] == more;
    assert DropSlash(buf + [SLASH]) == buf;
  }

  // `a/**/b` accepts `ab`, and `src/**` accepts `srcx`.
  lemma SlashIsForgotten()
    ensures var pat: Bytes := [97, SLASH, STAR, STAR, SLASH, 98]; Accepts(Compiled(pat), [97, 98]) && !PatternMeans(pat, [97, 98])
    ensures var pat: Bytes := [115, 114, 99, SLASH, STAR, STAR];
            Accepts(Compiled(pat), [115, 114, 99, OTHER]) && !PatternMeans(pat, [115, 114, 99, OTHER])
  {
    BetweenForgotten();
    BehindForgotten();
  }

  /** A byte and, behind a slash, a `**`. */
  lemma PiecesAround(a: Byte, more: Bytes, buf: Bytes)
    requires a < 128 && a != STAR
    ensures PiecesOf([a, SLASH, STAR, STAR] + more, buf) ==
              [Text(buf + [a]), Deep(true, StartsWithSlash(more))] + PiecesOf(SkipSlash(more), [])
  {
    hide PiecesOf, SkipSlash, StartsWithSlash;
    var deep := [STAR, STAR] + more;
    CharIsRead(a, [SLASH] + deep, buf);
    CharIsRead(SLASH, deep, buf + [a]);
    DeepIsRead(more, buf + [a]);
    assert [a, SLASH, STAR, STAR] + more == [a] + ([SLASH] + deep);
  }

  lemma EndIsRead(buf: Bytes)
    ensures PiecesOf([], buf) == FlushText(buf)
  {
  }

  lemma PiecesOfBoth()
    ensures PiecesOf([97, SLASH, STAR, STAR, SLASH, 98], []) == [Text([97]), Deep(true, true), Text([98])]
    ensures PiecesOf([115, 114, 99, SLASH, STAR, STAR], []) == [Text([115, 114, 99]), Deep(true, false)]
  {
    hide PiecesOf;
    PiecesAround(97, [SLASH, 98], []);
    CharIsRead(98, [], []);
    EndIsRead([98]);
    assert [] + [97] == [97] && [] + [98] == [98] && SkipSlash([SLASH, 98]) == [98] + [];
    assert [97, SLASH, STAR, STAR, SLASH, 98] == [97, SLASH, STAR, STAR] + [SLASH, 98];
    var end: Bytes := [99, SLASH, STAR, STAR] + [];
    CharIsRead(115, [114] + end, []);
    CharIsRead(114, end, [115]);
    PiecesAround(99, [], [115, 114]);
    EndIsRead([]);
    assert [] + [115] == [115] && [115] + [114] == [115, 114] && [115, 114] + [99] == [115, 114, 99] && SkipSlash([]) == [];
    assert [115, 114, 99, SLASH, STAR, STAR] == [115] + ([114] + end);
  }

  lemma BetweenForgotten()
    ensures var pat: Bytes := [97, SLASH, STAR, STAR, SLASH, 98]; Accepts(Compiled(pat), [97, 98]) && !PatternMeans(pat, [97, 98])
  {
    PiecesOfBoth();
    var pat: Bytes, pieces := [97, SLASH, STAR, STAR, SLASH, 98], [Text([97]), Deep(true, true), Text([98])];
    CompiledForgets(pat, []);
    hide PiecesOf, PartsOf, Means, Try;
    assert pieces[1..] == [Deep(true, true), Text([98])] && pieces[1..][1..] == [Text([98])] && [Text([98])][1..] == [];
    BetweenMatchesMore(pieces);
    assert Bare(pieces) == [97, 98];
    assert Forgotten(pieces) == [Lit([97]), AnyChars, Lit([98])];
    CompleteWhenStarsFirst(Forgotten(pieces), [97, 98]);
  }

  lemma BehindForgotten()
    ensures var pat: Bytes := [115, 114, 99, SLASH, STAR, STAR];
            Accepts(Compiled(pat), [115, 114, 99, OTHER]) && !PatternMeans(pat, [115, 114, 99, OTHER])
  {
    PiecesOfBoth();
    var pat: Bytes, pieces := [115, 114, 99, SLASH, STAR, STAR], [Text([115, 114, 99]), Deep(true, false)];
    CompiledForgets(pat, []);
    hide PiecesOf, PartsOf, Means, Try;
    assert pieces[1..] == [Deep(true, false)] && pieces[1..][1..] == [];
    StuffedIsMatched(pieces, 1);
    assert Stuffed(pieces) == [115, 114, 99, OTHER];
    if Means(pieces, Stuffed(pieces)) {
      NoSlashNoSpan(pieces, Stuffed(pieces));
    }
    assert Forgotten(pieces) == [Lit([115, 114, 99]), AnyChars];
    CompleteWhenStarsFirst(Forgotten(pieces), Stuffed(pieces));
  }
}
