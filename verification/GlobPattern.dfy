/** Compiling a glob string (crates/alt-cli/src/policy.rs).

    A `**` takes the slashes next to it along. The compiler turns every string into a list of
    parts that can be written down, and each such list comes from a string. Bytes of a literal
    are pushed as characters, so a byte of 128 or more becomes two: a pattern without wildcards
    matches itself if and only if it is ASCII. */
module GlobPattern {
  import opened Octets
  import opened Glob

  /** The UTF-8 encoding of the character with the number `b`. */
  function AsChar(b: Byte): Bytes {
    if b < 128 then [b] else [(192 + b as int / 64) as Byte, (128 + b as int % 64) as Byte]
  }

  function Recoded(text: Bytes): Bytes {
    if text == [] then [] else AsChar(text[0]) + Recoded(text[1..])
  }

  function Flush(buf: Bytes): seq<Part> {
    if buf == [] then [] else [Lit(buf)]
  }

  function DropSlash(buf: Bytes): Bytes {
    if buf != [] && buf[|buf| - 1] == SLASH then buf[..|buf| - 1] else buf
  }

  function SkipSlash(pat: Bytes): Bytes {
    if pat != [] && pat[0] == SLASH then pat[1..] else pat
  }

  predicate IsDouble(pat: Bytes) {
    |pat| >= 2 && pat[0] == STAR && pat[1] == STAR
  }

  /** The parts of `pat` with the literal `buf` already read. */
  function PartsOf(pat: Bytes, buf: Bytes): seq<Part>
    decreases |pat|
  {
    if pat == [] then Flush(buf)
    else if IsDouble(pat) then Flush(DropSlash(buf)) + [AnyChars] + PartsOf(SkipSlash(pat[2..]), [])
    else if pat[0] == STAR then Flush(buf) + [AnySegment] + PartsOf(pat[1..], [])
    else PartsOf(pat[1..], buf + AsChar(pat[0]))
  }

  function Compiled(pat: Bytes): seq<Part> {
    PartsOf(pat, [])
  }

  lemma DoubleStep(pat: Bytes, i: nat, buf: Bytes)
    requires i + 1 < |pat| && pat[i] == STAR && pat[i + 1] == STAR
    ensures var next := if i + 2 < |pat| && pat[i + 2] == SLASH then i + 3 else i + 2;
            PartsOf(pat[i..], buf) == Flush(DropSlash(buf)) + [AnyChars] + PartsOf(pat[next..], [])
  {
    var here := pat[i..];
    assert here[2..] == pat[i + 2..];
    if i + 2 < |pat| {
      assert here[2..][1..] == pat[i + 3..];
    }
  }

  lemma StarStep(pat: Bytes, i: nat, buf: Bytes)
    requires i < |pat| && pat[i] == STAR && !(i + 1 < |pat| && pat[i + 1] == STAR)
    ensures PartsOf(pat[i..], buf) == Flush(buf) + [AnySegment] + PartsOf(pat[i + 1..], [])
  {
    assert pat[i..][1..] == pat[i + 1..];
  }

  lemma CharStep(pat: Bytes, i: nat, buf: Bytes)
    requires i < |pat| && pat[i] != STAR
    ensures PartsOf(pat[i..], buf) == PartsOf(pat[i + 1..], buf + AsChar(pat[i]))
  {
    assert pat[i..][1..] == pat[i + 1..];
  }

  method New(pat: Bytes) returns (parts: seq<Part>)
    ensures parts == Compiled(pat)
  {
    parts := [];
    var buf, i: nat := [], 0;
    assert pat[0..] == pat && PartsOf([], []) == [];
    assert forall b: Bytes :: PartsOf([], b) == Flush(b);
    hide PartsOf, AsChar;
    while i < |pat|
      invariant i <= |pat|
      invariant Compiled(pat) == parts + PartsOf(pat[i..], buf)
    {
      ghost var before, read := parts, buf;
      if pat[i] == STAR {
        var double := i + 1 < |pat| && pat[i + 1] == STAR;
        if double {
          DoubleStep(pat, i, buf);
        } else {
          StarStep(pat, i, buf);
        }
        if double && buf != [] && buf[|buf| - 1] == SLASH {
          buf := buf[..|buf| - 1];
        }
        if buf != [] {
          parts := parts + [Lit(buf)];
          buf := [];
        }
        assert parts == before + Flush(if double then DropSlash(read) else read);
        if double {
          parts := parts + [AnyChars];
          i := i + 2;
          if i < |pat| && pat[i] == SLASH {
            i := i + 1;
          }
        } else {
          parts := parts + [AnySegment];
          i := i + 1;
        }
        Regroup(before, Flush(if double then DropSlash(read) else read), [if double then AnyChars else AnySegment], PartsOf(pat[i..], []));
      } else {
        CharStep(pat, i, buf);
        buf := buf + AsChar(pat[i]);
        i := i + 1;
      }
    }
    if buf != [] {
      parts := parts + [Lit(buf)];
    }
  }

  lemma Regroup(a: seq<Part>, b: seq<Part>, c: seq<Part>, d: seq<Part>)
    ensures a + (b + c + d) == a + b + c + d
  {
  }

  // ---- which parts a string stands for ----

  /** Parts that can be written down: literals are neither empty nor next to each other, and no
      two `*` are next to each other. */
  predicate Writable(parts: seq<Part>) {
    && (forall k :: 0 <= k < |parts| && parts[k].Lit? ==> parts[k].text != [])
    && (forall k, l :: 0 <= k < l == k + 1 < |parts| ==> !(parts[k].Lit? && parts[l].Lit?))
    && (forall k, l :: 0 <= k < l == k + 1 < |parts| ==> !(parts[k] == AnySegment && parts[l] == AnySegment))
  }

  /** No literal has a star in it. */
  predicate Starless(parts: seq<Part>) {
    forall k :: 0 <= k < |parts| && parts[k].Lit? ==> STAR !in parts[k].text
  }

  function Written(parts: seq<Part>): Bytes {
    if parts == [] then []
    else
      (match parts[0]
       case Lit(text) => text
       case AnySegment => [STAR]
       case AnyChars => [SLASH, STAR, STAR, SLASH]) + Written(parts[1..])
  }

  function RecodedParts(parts: seq<Part>): seq<Part> {
    if parts == [] then []
    else [if parts[0].Lit? then Lit(Recoded(parts[0].text)) else parts[0]] + RecodedParts(parts[1..])
  }

  lemma WritableRest(parts: seq<Part>)
    requires Writable(parts) && Starless(parts) && parts != []
    ensures Writable(parts[1..]) && Starless(parts[1..])
    ensures parts[0].Lit? ==> parts[0].text != [] && STAR !in parts[0].text
    ensures |parts| > 1 ==> !(parts[0].Lit? && parts[1].Lit?) && !(parts[0] == AnySegment && parts[1] == AnySegment)
  {
  }

  lemma {:induction false} TextIsRead(text: Bytes, more: Bytes, buf: Bytes)
    requires STAR !in text
    ensures PartsOf(text + more, buf) == PartsOf(more, buf + Recoded(text))
    decreases |text|
  {
    if text == [] {
      assert text + more == more && buf + [] == buf;
    } else {
      TextIsRead(text[1..], more, buf + AsChar(text[0]));
      var w := text + more;
      assert w[0..] == w && w[1..] == text[1..] + more;
      CharStep(w, 0, buf);
      hide PartsOf, AsChar;
      assert buf + AsChar(text[0]) + Recoded(text[1..]) == buf + (AsChar(text[0]) + Recoded(text[1..]));
    }
  }

  /** What is written after something other than a `*` does not make it a double one. */
  lemma NoStarFirst(parts: seq<Part>)
    requires Writable(parts) && Starless(parts) && (parts != [] ==> parts[0] != AnySegment)
    ensures Written(parts) != [] ==> Written(parts)[0] != STAR
  {
    if parts != [] {
      WritableRest(parts);
    }
  }

  lemma {:induction false} WrittenIsRead(parts: seq<Part>, buf: Bytes)
    requires Writable(parts) && Starless(parts) && (parts != [] && parts[0].Lit? ==> buf == [])
    ensures PartsOf(Written(parts), buf) == Flush(buf) + RecodedParts(parts)
    decreases |parts|
  {
    if parts != [] {
      WritableRest(parts);
      var more := Written(parts[1..]);
      match parts[0]
      case Lit(text) => LiteralIsRead(parts, buf, text);
      case AnySegment =>
        NoStarFirst(parts[1..]);
        WrittenIsRead(parts[1..], []);
        StarIsRead(more, buf);
        hide PartsOf, Written;
        Regrouped(buf, AnySegment, RecodedParts(parts[1..]));
      case AnyChars =>
        WrittenIsRead(parts[1..], []);
        DoubleIsRead(more, buf);
        hide PartsOf, Written;
        Regrouped(buf, AnyChars, RecodedParts(parts[1..]));
    }
  }

  lemma Regrouped(buf: Bytes, part: Part, parts: seq<Part>)
    ensures Flush(buf) + [part] + (Flush([]) + parts) == Flush(buf) + ([part] + parts)
  {
  }

  lemma StarIsRead(more: Bytes, buf: Bytes)
    requires more != [] ==> more[0] != STAR
    ensures PartsOf([STAR] + more, buf) == Flush(buf) + [AnySegment] + PartsOf(more, [])
  {
    assert ([STAR] + more)[1..] == more;
  }

  lemma {:induction false} LiteralIsRead(parts: seq<Part>, buf: Bytes, text: Bytes)
    requires Writable(parts) && Starless(parts) && parts != [] && parts[0] == Lit(text) && buf == []
    ensures PartsOf(Written(parts), buf) == Flush(buf) + RecodedParts(parts)
    decreases |parts|, 0
  {
    WritableRest(parts);
    var more, code := Written(parts[1..]), Recoded(text);
    TextIsRead(text, more, buf);
    assert buf + code == code != [];
    WrittenIsRead(parts[1..], code);
    assert Flush(buf) + RecodedParts(parts) == [Lit(code)] + RecodedParts(parts[1..]);
  }

  lemma DoubleIsRead(more: Bytes, buf: Bytes)
    ensures PartsOf([SLASH, STAR, STAR, SLASH] + more, buf) == Flush(buf) + [AnyChars] + PartsOf(more, [])
  {
    var w := [SLASH, STAR, STAR, SLASH] + more;
    assert w[1..][2..][1..] == more;
    assert w[1..] == [STAR, STAR, SLASH] + more && w[1..][2..][0] == SLASH;
    assert DropSlash(buf + [SLASH]) == buf;
    assert PartsOf(w, buf) == PartsOf(w[1..], buf + AsChar(SLASH));
  }

  /** Every list of parts that can be written down is what its string compiles to. */
  lemma CompileWritten(parts: seq<Part>)
    requires Writable(parts) && Starless(parts)
    ensures Compiled(Written(parts)) == RecodedParts(parts)
  {
    WrittenIsRead(parts, []);
    assert Flush([]) + RecodedParts(parts) == RecodedParts(parts);
  }

  // ---- every string ----

  lemma WritableBehind(first: Part, rest: seq<Part>)
    requires Writable(rest) && (first.Lit? ==> first.text != [])
    requires rest != [] ==> !(first.Lit? && rest[0].Lit?) && !(first == AnySegment && rest[0] == AnySegment)
    ensures Writable([first] + rest)
  {
    var all := [first] + rest;
    forall k, l | 0 <= k < l == k + 1 < |all|
      ensures !(all[k].Lit? && all[l].Lit?) && !(all[k] == AnySegment && all[l] == AnySegment)
    {
      if k > 0 {
        assert all[k] == rest[k - 1] && all[l] == rest[l - 1];
      }
    }
  }

  /** Whatever the string: its parts can be written down. */
  lemma {:induction false} CompiledIsWritable(pat: Bytes, buf: Bytes)
    ensures Writable(PartsOf(pat, buf))
    ensures PartsOf(pat, buf) != [] && PartsOf(pat, buf)[0] == AnySegment ==> buf == [] && pat[0] == STAR
    decreases |pat|
  {
    if pat != [] {
      hide Writable, SkipSlash;
      if IsDouble(pat) {
        CompiledIsWritable(SkipSlash(pat[2..]), []);
        WritableBehind(AnyChars, PartsOf(SkipSlash(pat[2..]), []));
        WithLiteral(DropSlash(buf), AnyChars, PartsOf(SkipSlash(pat[2..]), []));
      } else if pat[0] == STAR {
        CompiledIsWritable(pat[1..], []);
        WritableBehind(AnySegment, PartsOf(pat[1..], []));
        WithLiteral(buf, AnySegment, PartsOf(pat[1..], []));
      } else {
        CompiledIsWritable(pat[1..], buf + AsChar(pat[0]));
      }
    } else {
      assert Writable(Flush(buf));
    }
  }

  lemma WithLiteral(buf: Bytes, part: Part, rest: seq<Part>)
    requires Writable([part] + rest) && !part.Lit?
    ensures var parts := Flush(buf) + [part] + rest;
            Writable(parts) && parts[0] == if buf == [] then part else Lit(buf)
  {
    if buf != [] {
      WritableBehind(Lit(buf), [part] + rest);
      assert Flush(buf) + [part] + rest == [Lit(buf)] + ([part] + rest);
    } else {
      assert Flush(buf) + [part] + rest == [part] + rest;
    }
  }

  // ---- literal patterns ----

  predicate IsAscii(text: Bytes) {
    forall k :: 0 <= k < |text| ==> text[k] < 128
  }

  lemma {:induction false} RecodedLength(text: Bytes)
    ensures |Recoded(text)| >= |text|
    ensures |Recoded(text)| == |text| ==> Recoded(text) == text && IsAscii(text)
    ensures IsAscii(text) ==> Recoded(text) == text
    decreases |text|
  {
    if text != [] {
      RecodedLength(text[1..]);
      assert text == [text[0]] + text[1..];
      if IsAscii(text) {
        assert IsAscii(text[1..]);
      }
    }
  }

  /** A pattern without wildcards matches its recoding and nothing else. */
  lemma LiteralPattern(pat: Bytes, input: Bytes)
    requires STAR !in pat
    ensures Accepts(Compiled(pat), input) <==> input == Recoded(pat)
  {
    TextIsRead(pat, [], []);
    assert pat + [] == pat && [] + Recoded(pat) == Recoded(pat);
    assert Compiled(pat) == PartsOf([], Recoded(pat)) == Flush(Recoded(pat));
    OneLiteral(Recoded(pat), input);
  }

  lemma OneLiteral(text: Bytes, input: Bytes)
    ensures Accepts(Flush(text), input) <==> input == text
  {
    if text != [] {
      assert [Lit(text)][1..] == [];
      if StartsWith(input, text) {
        assert input == input[..|text|] + input[|text|..];
        assert Try(Flush(text), input) == Try([], input[|text|..]);
        assert input == text <==> |input[|text|..]| == 0;
      }
      assert text[..|text|] == text;
    }
  }

  /** A pattern without wildcards matches itself if and only if it is ASCII. */
  lemma LiteralMatchesItself(pat: Bytes)
    requires STAR !in pat
    ensures Accepts(Compiled(pat), pat) <==> IsAscii(pat)
  {
    LiteralPattern(pat, pat);
    RecodedLength(pat);
  }

  /** The pattern that spells e with an acute accent in UTF-8 rejects the path it spells, and
      matches four other bytes. */
  lemma AccentRejectsItself()
    ensures !Accepts(Compiled([195, 169]), [195, 169]) && Accepts(Compiled([195, 169]), [195, 131, 194, 169])
  {
    var pat: Bytes := [195, 169];
    assert pat[0] == 195;
    LiteralMatchesItself(pat);
    assert pat[1..] == [169] && pat[1..][1..] == [];
    assert Recoded(pat) == [195, 131, 194, 169];
    LiteralPattern(pat, Recoded(pat));
  }
}
