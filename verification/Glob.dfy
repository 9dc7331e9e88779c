/** Glob patterns of policy rules (crates/alt-cli/src/policy.rs).

    A pattern is a list of literals, `*` (one or more bytes other than a slash) and `**` (any
    bytes). `Matches` is its meaning. `Try` is the backtracking matcher: it keeps only the last
    `**` to come back to, and a `*` is not come back from. Whatever it accepts matches. It
    accepts everything that matches if and only if no `*` comes after a `**` in the pattern. */
module Glob {
  import opened Octets

  const SLASH: Byte := 47

  const STAR: Byte := 42

  datatype Part = Lit(text: Bytes) | AnySegment | AnyChars

  // ---- what a pattern means ----

  ghost predicate Matches(parts: seq<Part>, input: Bytes)
    decreases |parts|, 0
  {
    if parts == [] then input == []
    else
      match parts[0]
      case Lit(text) => StartsWith(input, text) && Matches(parts[1..], input[|text|..])
      case AnySegment => exists k :: 1 <= k <= Segment(input) && MatchesFrom(parts[1..], input, k)
      case AnyChars => exists k :: 0 <= k <= |input| && MatchesFrom(parts[1..], input, k)
  }

  ghost predicate MatchesFrom(parts: seq<Part>, input: Bytes, k: nat)
    requires k <= |input|
    decreases |parts|, 1
  {
    Matches(parts, input[k..])
  }

  predicate StartsWith(input: Bytes, text: Bytes) {
    |text| <= |input| && input[..|text|] == text
  }

  /** How many bytes come before the first slash. */
  function Segment(input: Bytes): (n: nat)
    ensures n <= |input|
    ensures forall k :: 0 <= k < n ==> input[k] != SLASH
    ensures n < |input| ==> input[n] == SLASH
  {
    if input == [] || input[0] == SLASH then 0 else 1 + Segment(input[1..])
  }

  // ---- the matcher ----

  /** A mismatch can be retried from the last `**`; a miss is final. */
  datatype Verdict = Hit | Miss | Mismatch

  function Try(parts: seq<Part>, input: Bytes): Verdict
    decreases |parts|, 0
  {
    if parts == [] then if input == [] then Hit else Mismatch
    else
      match parts[0]
      case Lit(text) => if StartsWith(input, text) then Try(parts[1..], input[|text|..]) else Mismatch
      case AnySegment => if AnySplit(parts[1..], input, Segment(input)) then Hit else Miss
      case AnyChars => Scan(parts[1..], input)
  }

  /** Whether the rest matches behind a segment of at most `k` bytes. */
  predicate AnySplit(rest: seq<Part>, input: Bytes, k: nat)
    requires k <= |input|
    decreases |rest|, k + 1
  {
    k > 0 && (Try(rest, input[k..]) == Hit || AnySplit(rest, input, k - 1))
  }

  /** Tries the parts behind a `**` at one place after the other, until the verdict is final. */
  function Scan(rest: seq<Part>, input: Bytes): Verdict
    decreases |rest|, |input| + 1
  {
    var here := Try(rest, input);
    if here != Mismatch then here
    else if input == [] then Miss
    else Scan(rest, input[1..])
  }

  predicate Accepts(parts: seq<Part>, input: Bytes) {
    Try(parts, input) == Hit
  }

  // ---- soundness ----

  /** Whatever is accepted matches. */
  lemma {:induction false} AcceptedMatches(parts: seq<Part>, input: Bytes)
    requires Accepts(parts, input)
    ensures Matches(parts, input)
    decreases |parts|, 0
  {
    if parts != [] {
      match parts[0]
      case Lit(text) => AcceptedMatches(parts[1..], input[|text|..]);
      case AnySegment =>
        var k := SplitFound(parts[1..], input, Segment(input));
        AcceptedMatches(parts[1..], input[k..]);
        assert MatchesFrom(parts[1..], input, k);
      case AnyChars =>
        var k := ScanFound(parts[1..], input);
        AcceptedMatches(parts[1..], input[k..]);
        assert MatchesFrom(parts[1..], input, k);
    }
  }

  lemma {:induction false} SplitFound(rest: seq<Part>, input: Bytes, n: nat) returns (k: nat)
    requires n <= |input| && AnySplit(rest, input, n)
    ensures 1 <= k <= n && Accepts(rest, input[k..])
    decreases n
  {
    if Try(rest, input[n..]) == Hit {
      k := n;
    } else {
      k := SplitFound(rest, input, n - 1);
    }
  }

  lemma {:induction false} SplitFinds(rest: seq<Part>, input: Bytes, n: nat, k: nat)
    requires 1 <= k <= n <= |input| && Accepts(rest, input[k..])
    ensures AnySplit(rest, input, n)
    decreases n
  {
    if k < n {
      SplitFinds(rest, input, n - 1, k);
    }
  }

  lemma {:induction false} ScanFound(rest: seq<Part>, input: Bytes) returns (k: nat)
    requires Scan(rest, input) == Hit
    ensures k <= |input| && Accepts(rest, input[k..])
    decreases |input|
  {
    if Try(rest, input) == Hit {
      k := 0;
      assert input[0..] == input;
    } else {
      k := ScanFound(rest, input[1..]);
      assert input[1..][k..] == input[k + 1..];
      k := k + 1;
    }
  }

  // ---- completeness ----

  predicate NoStar(parts: seq<Part>) {
    forall k :: 0 <= k < |parts| ==> parts[k] != AnySegment
  }

  /** No `*` comes after a `**`. */
  predicate StarsFirst(parts: seq<Part>) {
    forall j, k :: 0 <= j < k < |parts| && parts[j] == AnyChars ==> parts[k] != AnySegment
  }

  /** No part of the input from some place on matches. */
  ghost predicate NoSuffixMatches(parts: seq<Part>, input: Bytes) {
    forall k :: 0 <= k <= |input| ==> !MatchesFrom(parts, input, k)
  }

  lemma SuffixOfSuffix(parts: seq<Part>, input: Bytes, n: nat, k: nat)
    requires n <= |input| && k <= |input| - n
    ensures MatchesFrom(parts, input[n..], k) == MatchesFrom(parts, input, n + k)
  {
    assert input[n..][k..] == input[n + k..];
  }

  /** Without `*`, a miss is right about every suffix of the input: what a later start of the
      last `**` could still match, it would have met already. */
  lemma {:induction false} MissIsRight(parts: seq<Part>, input: Bytes)
    requires NoStar(parts)
    ensures Try(parts, input) == Mismatch ==> !Matches(parts, input)
    ensures Try(parts, input) == Miss ==> NoSuffixMatches(parts, input)
    decreases |parts|, 0
  {
    if parts != [] {
      var rest := parts[1..];
      match parts[0]
      case Lit(text) =>
        if StartsWith(input, text) {
          MissIsRight(rest, input[|text|..]);
          if Try(rest, input[|text|..]) == Miss {
            LiteralMiss(parts, input, text);
          }
        }
      case AnyChars =>
        ScanMissIsRight(rest, input);
        if Scan(rest, input) == Miss {
          AnyCharsMiss(parts, input);
        }
    }
  }

  lemma LiteralMiss(parts: seq<Part>, input: Bytes, text: Bytes)
    requires parts != [] && parts[0] == Lit(text) && StartsWith(input, text)
    requires NoSuffixMatches(parts[1..], input[|text|..])
    ensures NoSuffixMatches(parts, input)
  {
    forall k | 0 <= k <= |input|
      ensures !MatchesFrom(parts, input, k)
    {
      if MatchesFrom(parts, input, k) {
        assert Matches(parts, input[k..]);
        assert MatchesFrom(parts[1..], input[k..], |text|);
        SuffixOfSuffix(parts[1..], input, k, |text|);
        SuffixOfSuffix(parts[1..], input, |text|, k);
      }
    }
  }

  lemma AnyCharsMiss(parts: seq<Part>, input: Bytes)
    requires parts != [] && parts[0] == AnyChars && NoSuffixMatches(parts[1..], input)
    ensures NoSuffixMatches(parts, input)
  {
    forall k | 0 <= k <= |input|
      ensures !MatchesFrom(parts, input, k)
    {
      if MatchesFrom(parts, input, k) {
        assert Matches(parts, input[k..]);
        var j :| 0 <= j <= |input[k..]| && MatchesFrom(parts[1..], input[k..], j);
        SuffixOfSuffix(parts[1..], input, k, j);
      }
    }
  }

  lemma {:induction false} ScanMissIsRight(rest: seq<Part>, input: Bytes)
    requires NoStar(rest)
    ensures Scan(rest, input) != Mismatch
    ensures Scan(rest, input) == Miss ==> NoSuffixMatches(rest, input)
    decreases |rest|, |input| + 1
  {
    MissIsRight(rest, input);
    if Try(rest, input) == Mismatch {
      if input != [] {
        ScanMissIsRight(rest, input[1..]);
      }
      if Scan(rest, input) == Miss {
        forall k | 0 <= k <= |input|
          ensures !MatchesFrom(rest, input, k)
        {
          if k == 0 {
            assert input[0..] == input;
          } else {
            SuffixOfSuffix(rest, input, 1, k - 1);
          }
        }
      }
    }
  }

  /** Where no `*` comes after a `**`, the matcher accepts exactly what matches. */
  lemma {:induction false} CompleteWhenStarsFirst(parts: seq<Part>, input: Bytes)
    requires StarsFirst(parts)
    ensures Accepts(parts, input) <==> Matches(parts, input)
    decreases |parts|
  {
    if Accepts(parts, input) {
      AcceptedMatches(parts, input);
    } else if parts != [] {
      var rest := parts[1..];
      match parts[0]
      case Lit(text) =>
        if StartsWith(input, text) {
          CompleteWhenStarsFirst(rest, input[|text|..]);
        }
      case AnySegment =>
        forall k | 1 <= k <= Segment(input)
          ensures !MatchesFrom(rest, input, k)
        {
          CompleteWhenStarsFirst(rest, input[k..]);
          if Accepts(rest, input[k..]) {
            SplitFinds(rest, input, Segment(input), k);
          }
        }
      case AnyChars =>
        assert NoStar(rest);
        ScanMissIsRight(rest, input);
    }
  }

  // ---- and nowhere else ----

  /** A shortest input that matches. */
  function Shortest(parts: seq<Part>): Bytes {
    if parts == [] then []
    else (match parts[0] case Lit(text) => text case AnySegment => [120] case AnyChars => []) + Shortest(parts[1..])
  }

  lemma {:induction false} ShortestMatches(parts: seq<Part>)
    ensures Matches(parts, Shortest(parts))
    decreases |parts|
  {
    if parts != [] {
      var w, rest := Shortest(parts), Shortest(parts[1..]);
      ShortestMatches(parts[1..]);
      match parts[0]
      case Lit(text) => assert w[..|text|] == text && w[|text|..] == rest;
      case AnySegment =>
        assert w[1..] == rest && w[0] == 120;
        assert MatchesFrom(parts[1..], w, 1);
      case AnyChars =>
        assert w[0..] == rest;
        assert MatchesFrom(parts[1..], w, 0);
    }
  }

  /** After `parts` without `*`, taken where they first fit, comes a `*` that meets a slash. */
  function Before(parts: seq<Part>, rest: seq<Part>): seq<Part> {
    parts + [AnySegment] + rest
  }

  function Blocked(parts: seq<Part>, tail: Bytes): Bytes {
    Shortest(parts) + ([SLASH] + tail)
  }

  lemma BeforeRest(parts: seq<Part>, rest: seq<Part>)
    requires parts != []
    ensures Before(parts, rest)[0] == parts[0] && Before(parts, rest)[1..] == Before(parts[1..], rest)
  {
  }

  lemma {:induction false} MissAtSlash(parts: seq<Part>, rest: seq<Part>, tail: Bytes)
    requires NoStar(parts)
    ensures Try(Before(parts, rest), Blocked(parts, tail)) == Miss
    decreases |parts|
  {
    var w := Blocked(parts, tail);
    if parts == [] {
      assert w[0] == SLASH;
    } else {
      BeforeRest(parts, rest);
      MissAtSlash(parts[1..], rest, tail);
      if parts[0].Lit? {
        var text := parts[0].text;
        assert w == text + Blocked(parts[1..], tail);
        assert w[..|text|] == text && w[|text|..] == Blocked(parts[1..], tail);
      } else {
        assert w == Blocked(parts[1..], tail);
      }
    }
  }

  /** A literal found in front of itself with a slash before it is all slashes. */
  lemma {:induction false} AllSlashes(text: Bytes, more: Bytes, k: nat)
    requires StartsWith([SLASH] + text + more, text) && k < |text|
    ensures text[k] == SLASH
    decreases k
  {
    var w := [SLASH] + text + more;
    assert w[..|text|][k] == w[k] == text[k];
    if k > 0 {
      AllSlashes(text, more, k - 1);
    }
  }

  lemma AfterSlashes(text: Bytes, more: Bytes)
    requires StartsWith([SLASH] + text + more, text)
    ensures ([SLASH] + text + more)[|text|..] == [SLASH] + more
  {
    var w := [SLASH] + text + more;
    assert w[|text| + 1..] == more;
    assert w[|text|] == SLASH by {
      if text != [] {
        AllSlashes(text, more, |text| - 1);
      }
    }
  }

  lemma {:induction false} NoHitAfterSlash(parts: seq<Part>, rest: seq<Part>, tail: Bytes)
    requires NoStar(parts)
    ensures Try(Before(parts, rest), [SLASH] + Blocked(parts, tail)) != Hit
    decreases |parts|, 0
  {
    var w := [SLASH] + Blocked(parts, tail);
    if parts == [] {
      assert w[0] == SLASH;
    } else {
      BeforeRest(parts, rest);
      if parts[0].Lit? {
        var text := parts[0].text;
        assert w == [SLASH] + text + Blocked(parts[1..], tail);
        if StartsWith(w, text) {
          AfterSlashes(text, Blocked(parts[1..], tail));
          NoHitAfterSlash(parts[1..], rest, tail);
        }
      } else {
        assert w == [SLASH] + Blocked(parts[1..], tail);
        ScanMissesAfterSlash(parts[1..], rest, tail);
      }
    }
  }

  lemma {:induction false} ScanMissesAfterSlash(parts: seq<Part>, rest: seq<Part>, tail: Bytes)
    requires NoStar(parts)
    ensures Scan(Before(parts, rest), [SLASH] + Blocked(parts, tail)) == Miss
    decreases |parts|, 1
  {
    var w := [SLASH] + Blocked(parts, tail);
    NoHitAfterSlash(parts, rest, tail);
    MissAtSlash(parts, rest, tail);
    assert w[1..] == Blocked(parts, tail);
  }

  /** Nothing from within the first segment on is accepted. */
  ghost predicate NoneAccepted(parts: seq<Part>, w: Bytes) {
    forall k :: 0 <= k <= Segment(w) ==> !AcceptsFrom(parts, w, k)
  }

  predicate AcceptsFrom(parts: seq<Part>, w: Bytes, k: nat)
    requires k <= |w|
  {
    Accepts(parts, w[k..])
  }

  lemma {:induction false} FirstStar(parts: seq<Part>) returns (n: nat)
    requires !NoStar(parts)
    ensures n < |parts| && parts[n] == AnySegment && NoStar(parts[..n])
    decreases |parts|
  {
    if parts[0] == AnySegment {
      n := 0;
    } else {
      n := FirstStar(parts[1..]);
      assert parts[..n + 1] == [parts[0]] + parts[1..][..n];
      n := n + 1;
    }
  }

  /** Where a `*` comes after a `**`, some input matches and is rejected, and so is all of it from
      anywhere within its first segment on. */
  lemma {:induction false} RejectedInput(parts: seq<Part>) returns (w: Bytes)
    requires !StarsFirst(parts)
    ensures Matches(parts, w) && NoneAccepted(parts, w)
    decreases |parts|
  {
    match parts[0]
    case AnyChars =>
      w := RejectedAfterStars(parts);
    case Lit(text) =>
      var v := RejectedInput(parts[1..]);
      w := text + v;
      assert w[..|text|] == text && w[|text|..] == v;
      LiteralRejects(parts, text, v);
    case AnySegment =>
      var v := RejectedInput(parts[1..]);
      w := [120] + v;
      assert w[1..] == v;
      assert MatchesFrom(parts[1..], w, 1);
      StarRejects(parts, v);
  }

  lemma RejectedAfterStars(parts: seq<Part>) returns (w: Bytes)
    requires !StarsFirst(parts) && parts[0] == AnyChars
    ensures Matches(parts, w) && NoneAccepted(parts, w)
  {
    var rest := parts[1..];
    var n := FirstStar(rest);
    var lits, more := rest[..n], rest[n + 1..];
    assert rest == Before(lits, more);
    var tail := Shortest(rest);
    w := [SLASH] + Blocked(lits, tail);
    ScanMissesAfterSlash(lits, more, tail);
    assert w[0..] == w;
    var k := 1 + |Shortest(lits)| + 1;
    assert w[k..] == tail;
    ShortestMatches(rest);
    assert MatchesFrom(rest, w, k);
  }

  lemma LiteralRejects(parts: seq<Part>, text: Bytes, v: Bytes)
    requires parts != [] && parts[0] == Lit(text) && NoneAccepted(parts[1..], v)
    ensures NoneAccepted(parts, text + v)
  {
    var w := text + v;
    forall k | 0 <= k <= Segment(w)
      ensures !AcceptsFrom(parts, w, k)
    {
      if StartsWith(w[k..], text) {
        LiteralInSegment(text, v, k);
        assert w[k..][|text|..] == v[k..];
        assert !AcceptsFrom(parts[1..], v, k);
      }
    }
  }

  /** A literal met again within the first segment ends within it, or not at all. */
  lemma LiteralInSegment(text: Bytes, v: Bytes, k: nat)
    requires k <= Segment(text + v) && StartsWith((text + v)[k..], text)
    ensures k <= Segment(v)
  {
    if k > 0 {
      forall j | 0 <= j < |text|
        ensures text[j] != SLASH
      {
        NoSlashAt(text, v, k, j);
      }
      NoSlashAnywhere(text);
      SegmentOfBoth(text, v);
    }
  }

  lemma {:induction false} NoSlashAt(text: Bytes, v: Bytes, k: nat, j: nat)
    requires 0 < k <= Segment(text + v) && StartsWith((text + v)[k..], text) && j < |text|
    ensures text[j] != SLASH
    decreases j
  {
    var w := text + v;
    assert w[j] == text[j];
    if j >= k {
      NoSlashAt(text, v, k, j - k);
      assert w[k..][..|text|][j - k] == w[j];
    }
  }

  lemma {:induction false} NoSlashAnywhere(text: Bytes)
    requires forall j :: 0 <= j < |text| ==> text[j] != SLASH
    ensures Segment(text) == |text|
    decreases |text|
  {
    if text != [] {
      NoSlashAnywhere(text[1..]);
    }
  }

  lemma {:induction false} SegmentOfBoth(text: Bytes, v: Bytes)
    requires Segment(text) == |text|
    ensures Segment(text + v) == |text| + Segment(v)
    decreases |text|
  {
    if text == [] {
      assert text + v == v;
    } else {
      SegmentOfBoth(text[1..], v);
      assert (text + v)[1..] == text[1..] + v;
    }
  }

  lemma StarRejects(parts: seq<Part>, v: Bytes)
    requires parts != [] && parts[0] == AnySegment && NoneAccepted(parts[1..], v)
    ensures NoneAccepted(parts, [120] + v)
  {
    var w := [120] + v;
    forall k | 0 <= k <= Segment(w)
      ensures !AcceptsFrom(parts, w, k)
    {
      if AcceptsFrom(parts, w, k) {
        var j := SplitFound(parts[1..], w[k..], Segment(w[k..]));
        SegmentFrom(w, k);
        assert w[k..][j..] == v[k + j - 1..];
        assert w[1..] == v;
        assert AcceptsFrom(parts[1..], v, k + j - 1);
      }
    }
  }

  lemma {:induction false} SegmentFrom(w: Bytes, k: nat)
    requires k <= Segment(w)
    ensures Segment(w[k..]) == Segment(w) - k
    decreases k
  {
    if k > 0 {
      SegmentFrom(w[1..], k - 1);
      assert w[1..][k - 1..] == w[k..];
    } else {
      assert w[0..] == w;
    }
  }

  /** The matcher accepts exactly what matches if and only if no `*` comes after a `**`. */
  lemma CompleteExactlyWhenStarsFirst(parts: seq<Part>)
    ensures StarsFirst(parts) <==> forall input: Bytes :: Accepts(parts, input) <==> Matches(parts, input)
  {
    if StarsFirst(parts) {
      forall input: Bytes
        ensures Accepts(parts, input) <==> Matches(parts, input)
      {
        CompleteWhenStarsFirst(parts, input);
      }
    } else {
      var w := RejectedInput(parts);
      assert w[0..] == w;
      assert !AcceptsFrom(parts, w, 0);
    }
  }

  /** The pattern of a file by its suffix in any directory misses a file one directory down. */
  lemma SuffixInAnyDirectory()
    ensures var parts, input := [AnyChars, AnySegment, Lit([46, 114, 115])], [115, 114, 99, 47] + [97, 46, 114, 115];
            Matches(parts, input) && !Accepts(parts, input)
  {
    var lit: seq<Part> := [Lit([46, 114, 115])];
    var star := [AnySegment] + lit;
    var parts := [AnyChars, AnySegment, Lit([46, 114, 115])];
    var directory: Bytes, file: Bytes := [115, 114, 99, 47], [97, 46, 114, 115];
    var input := directory + file;
    assert parts[1..] == star && star[1..] == lit && input[4..] == file;
    SuffixIsMissed(lit, input);
    FileMatches(star, lit, file);
    SuffixDecides(parts, star, lit, input);
  }

  lemma SuffixDecides(parts: seq<Part>, star: seq<Part>, lit: seq<Part>, input: Bytes)
    requires |parts| > 0 && parts[0] == AnyChars && parts[1..] == star && |star| > 0 && star[0] == AnySegment && star[1..] == lit
    requires |input| > 4 && Matches(star, input[4..]) && !AnySplit(lit, input, Segment(input))
    ensures Matches(parts, input) && !Accepts(parts, input)
  {
    hide Segment, AnySplit;
    assert MatchesFrom(star, input, 4);
    assert Try(star, input) == Miss;
    assert Scan(star, input) == Miss;
  }

  lemma SuffixIsMissed(lit: seq<Part>, input: Bytes)
    requires lit == [Lit([46, 114, 115])] && |input| > 4
    requires input[0] == 115 && input[1] == 114 && input[2] == 99 && input[3] == SLASH
    ensures !AnySplit(lit, input, Segment(input))
  {
    SegmentIsFirst(input, 3);
    NotAtFirst(lit, input, 1);
    NotAtFirst(lit, input, 2);
    NotAtFirst(lit, input, 3);
    hide Try;
    assert !AnySplit(lit, input, 1);
    assert !AnySplit(lit, input, 2);
  }

  lemma FileMatches(star: seq<Part>, lit: seq<Part>, file: Bytes)
    requires lit == [Lit([46, 114, 115])] && star == [AnySegment] + lit && file == [97, 46, 114, 115]
    ensures Matches(star, file)
  {
    assert star[1..] == lit && lit[1..] == [] && file[1..] == [46, 114, 115];
    assert Matches(lit, file[1..]);
    assert MatchesFrom(lit, file, 1);
  }

  lemma NotAtFirst(lit: seq<Part>, input: Bytes, k: nat)
    requires lit == [Lit([46, 114, 115])] && k < |input| && input[k] != 46
    ensures Try(lit, input[k..]) == Mismatch
  {
    if StartsWith(input[k..], lit[0].text) {
      FirstByte(input, k, lit[0].text);
    }
  }

  lemma FirstByte(input: Bytes, k: nat, text: Bytes)
    requires k < |input| && text != [] && StartsWith(input[k..], text)
    ensures input[k] == text[0]
  {
    assert input[k..][..|text|][0] == input[k];
  }

  lemma {:induction false} SegmentIsFirst(w: Bytes, n: nat)
    requires n < |w| && w[n] == SLASH && forall k :: 0 <= k < n ==> w[k] != SLASH
    ensures Segment(w) == n
    decreases n
  {
    if n > 0 {
      SegmentIsFirst(w[1..], n - 1);
    }
  }

  // ---- the algorithm ----

  /** The last `**` met, and where in the input it was last tried. */
  datatype Retry = NoRetry | From(part: nat, at: nat)

  /** What the matcher will answer from here. */
  predicate Answer(parts: seq<Part>, input: Bytes, p: nat, i: nat, bt: Retry)
    requires p <= |parts| && i <= |input| && (bt.From? ==> bt.part < |parts| && bt.at <= |input|)
  {
    var v := Try(parts[p..], input[i..]);
    v == Hit || (v == Mismatch && Retried(parts, input, bt))
  }

  predicate Retried(parts: seq<Part>, input: Bytes, bt: Retry)
    requires bt.From? ==> bt.part < |parts| && bt.at <= |input|
  {
    bt.From? && bt.at < |input| && Scan(parts[bt.part + 1..], input[bt.at + 1..]) == Hit
  }

  method MatchParts(parts: seq<Part>, input: Bytes) returns (r: bool)
    ensures r == Accepts(parts, input)
    decreases |parts|, 2
  {
    hide Segment, AnySplit, Try, Scan, Answer, Retried, Accepts, StartsWith;
    var i: nat, p: nat := 0, 0;
    var bt := NoRetry;
    AnswerAtStart(parts, input);
    while true
      invariant p <= |parts| && i <= |input| && (bt.From? ==> bt.part < p && bt.at <= i)
      invariant Answer(parts, input, p, i, bt) == Accepts(parts, input)
      decreases if bt.From? then |parts| - bt.part else |parts| + 1, if bt.From? then |input| - bt.at else 0, |parts| - p
    {
      if p == |parts| {
        AnswerAtEnd(parts, input, i, bt);
        if i == |input| {
          return true;
        }
      } else {
        match parts[p]
        case Lit(text) =>
          AnswerAtLiteral(parts, input, p, i, bt, text);
          if i + |text| <= |input| && input[i..i + |text|] == text {
            i, p := i + |text|, p + 1;
            continue;
          }
        case AnySegment =>
          var end: nat := i;
          while end < |input| && input[end] != SLASH
            invariant i <= end <= |input|
            invariant forall k :: i <= k < end ==> input[k] != SLASH
          {
            end := end + 1;
          }
          AnswerAtSegment(parts, input, p, i, bt, end);
          r := MatchAnySegment(parts, p, input, i, end);
          return;
        case AnyChars =>
          AnswerAtAnyChars(parts, input, p, i, bt);
          bt, p := From(p, i), p + 1;
          continue;
      }
      if bt.From? && bt.at < |input| {
        AnswerOfRetry(parts, input, bt);
        i := bt.at + 1;
        p := bt.part + 1;
        bt := From(bt.part, i);
        continue;
      }
      NoRetryLeft(parts, input, bt);
      return false;
    }
  }

  method MatchAnySegment(parts: seq<Part>, p: nat, input: Bytes, lo: nat, hi: nat) returns (r: bool)
    requires p < |parts| && lo <= hi <= |input|
    ensures r == AnySplit(parts[p + 1..], input[lo..], hi - lo)
    decreases |parts| - p, 1
  {
    if hi == lo {
      return false;
    }
    var rest := parts[p + 1..];
    var end := hi;
    while true
      invariant lo < end <= hi
      invariant AnySplit(rest, input[lo..], end - lo) == AnySplit(rest, input[lo..], hi - lo)
      decreases end
    {
      assert input[end..] == input[lo..][end - lo..];
      var here := MatchParts(rest, input[end..]);
      if here {
        return true;
      }
      if end == lo + 1 {
        return false;
      }
      end := end - 1;
    }
  }

  // ---- one step of the loop ----

  lemma AnswerAtStart(parts: seq<Part>, input: Bytes)
    ensures Answer(parts, input, 0, 0, NoRetry) == Accepts(parts, input)
  {
    hide Try;
    assert parts[0..] == parts && input[0..] == input;
  }

  lemma AnswerAtEnd(parts: seq<Part>, input: Bytes, i: nat, bt: Retry)
    requires i <= |input| && (bt.From? ==> bt.part < |parts| && bt.at <= |input|)
    ensures Answer(parts, input, |parts|, i, bt) == (i == |input| || Retried(parts, input, bt))
  {
    hide Retried;
  }

  lemma AnswerAtLiteral(parts: seq<Part>, input: Bytes, p: nat, i: nat, bt: Retry, text: Bytes)
    requires p < |parts| && i <= |input| && (bt.From? ==> bt.part < |parts| && bt.at <= |input|)
    requires parts[p] == Lit(text)
    ensures Answer(parts, input, p, i, bt)
         == if i + |text| <= |input| && input[i..i + |text|] == text then Answer(parts, input, p + 1, i + |text|, bt)
            else Retried(parts, input, bt)
  {
    var v := Try(parts[p..], input[i..]);
    assert parts[p..][0] == Lit(text) && parts[p..][1..] == parts[p + 1..];
    assert v == if StartsWith(input[i..], text) then Try(parts[p + 1..], input[i..][|text|..]) else Mismatch;
    hide Try, Retried;
    LiteralHere(input, i, text);
  }

  lemma LiteralHere(input: Bytes, i: nat, text: Bytes)
    requires i <= |input|
    ensures StartsWith(input[i..], text) <==> i + |text| <= |input| && input[i..i + |text|] == text
    ensures StartsWith(input[i..], text) ==> input[i..][|text|..] == input[i + |text|..]
  {
    if i + |text| <= |input| {
      assert input[i..][..|text|] == input[i..i + |text|];
    }
  }

  /** A `*` decides: what it does not match is not retried. */
  lemma AnswerAtSegment(parts: seq<Part>, input: Bytes, p: nat, i: nat, bt: Retry, end: nat)
    requires p < |parts| && i <= |input| && (bt.From? ==> bt.part < |parts| && bt.at <= |input|)
    requires parts[p] == AnySegment && i <= end <= |input| && (end < |input| ==> input[end] == SLASH)
    requires forall k :: i <= k < end ==> input[k] != SLASH
    ensures Answer(parts, input, p, i, bt) == AnySplit(parts[p + 1..], input[i..], end - i)
  {
    assert parts[p..][0] == AnySegment && parts[p..][1..] == parts[p + 1..];
    SegmentEnds(input, i, end);
    hide AnySplit, Segment, Retried;
  }

  lemma SegmentEnds(input: Bytes, i: nat, end: nat)
    requires i <= end <= |input| && (end < |input| ==> input[end] == SLASH)
    requires forall k :: i <= k < end ==> input[k] != SLASH
    ensures Segment(input[i..]) == end - i
  {
    if end < |input| {
      SegmentIsFirst(input[i..], end - i);
    } else {
      NoSlashAnywhere(input[i..]);
    }
  }

  /** A `**` is entered by scanning from where the input stands, and forgets the one before. */
  lemma AnswerAtAnyChars(parts: seq<Part>, input: Bytes, p: nat, i: nat, bt: Retry)
    requires p < |parts| && i <= |input| && parts[p] == AnyChars
    requires bt.From? ==> bt.part < |parts| && bt.at <= |input|
    ensures Answer(parts, input, p, i, bt) == Answer(parts, input, p + 1, i, From(p, i))
  {
    var rest, here := parts[p + 1..], input[i..];
    assert parts[p..][0] == AnyChars && parts[p..][1..] == rest;
    assert Try(parts[p..], here) == Scan(rest, here);
    hide Try;
    ScanStep(rest, here);
    ScanIsFinal(rest, here);
    if i < |input| {
      assert here[1..] == input[i + 1..];
    }
    hide Scan;
  }

  lemma ScanStep(rest: seq<Part>, input: Bytes)
    ensures Scan(rest, input) == if Try(rest, input) != Mismatch then Try(rest, input)
                                 else if input == [] then Miss else Scan(rest, input[1..])
  {
    hide Try;
  }

  lemma {:induction false} ScanIsFinal(rest: seq<Part>, input: Bytes)
    ensures Scan(rest, input) != Mismatch
    decreases |input|
  {
    if input != [] {
      ScanIsFinal(rest, input[1..]);
    }
  }

  /** Coming back to a `**` goes on with the scan one byte further. */
  lemma AnswerOfRetry(parts: seq<Part>, input: Bytes, bt: Retry)
    requires bt.From? && bt.part < |parts| && bt.at < |input|
    ensures Answer(parts, input, bt.part + 1, bt.at + 1, From(bt.part, bt.at + 1)) == Retried(parts, input, bt)
  {
    hide Try, Scan;
    var rest, here := parts[bt.part + 1..], input[bt.at + 1..];
    ScanStep(rest, here);
    if here != [] {
      assert here[1..] == input[bt.at + 2..];
    }
  }

  lemma NoRetryLeft(parts: seq<Part>, input: Bytes, bt: Retry)
    requires bt.From? ==> bt.part < |parts| && bt.at == |input|
    ensures !Retried(parts, input, bt)
  {
  }
}
