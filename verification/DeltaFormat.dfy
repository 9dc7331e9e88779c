/** The delta decoder accepts exactly what spells a delta for the base, and returns its meaning
    (git's gitformat-pack, section "Deltified representation"). */
module DeltaFormat {
  import opened Delta
  import opened Octets
  import opened Places

  // ---- varints ----

  lemma PowersOf128()
    ensures Pow2(0) == 1 && Pow2(7) == 0x80 && Pow2(14) == 0x4000 && Pow2(21) == 0x20_0000 && Pow2(28) == 0x1000_0000
    ensures Pow2(35) == 0x8_0000_0000 && Pow2(42) == 0x400_0000_0000 && Pow2(49) == 0x2_0000_0000_0000
    ensures Pow2(56) == 0x100_0000_0000_0000 && Pow2(63) == 0x8000_0000_0000_0000
  {
    assert forall n {:trigger Pow2(n)} :: n >= 7 ==> Pow2(n) == 128 * Pow2(n - 7) by {
      forall n | n >= 7
        ensures Pow2(n) == 128 * Pow2(n - 7)
      {
        SevenSteps(n);
      }
    }
    assert Pow2(7) == 128 * Pow2(0);
    assert Pow2(14) == 128 * Pow2(7);
    assert Pow2(21) == 128 * Pow2(14);
    assert Pow2(28) == 128 * Pow2(21);
    assert Pow2(35) == 128 * Pow2(28);
    assert Pow2(42) == 128 * Pow2(35);
    assert Pow2(49) == 128 * Pow2(42);
    assert Pow2(56) == 128 * Pow2(49);
    assert Pow2(63) == 128 * Pow2(56);
  }

  lemma SevenSteps(n: nat)
    requires n >= 7
    ensures Pow2(n) == 128 * Pow2(n - 7)
  {
    assert Pow2(n) == 2 * Pow2(n - 1);
    assert Pow2(n - 1) == 2 * Pow2(n - 2);
    assert Pow2(n - 2) == 2 * Pow2(n - 3);
    assert Pow2(n - 3) == 2 * Pow2(n - 4);
    assert Pow2(n - 4) == 2 * Pow2(n - 5);
    assert Pow2(n - 5) == 2 * Pow2(n - 6);
    assert Pow2(n - 6) == 2 * Pow2(n - 7);
  }

  /** `n` moved up by `k` groups. */
  ghost function Scaled(k: nat, n: nat): nat {
    Pow2(7 * k) * n
  }

  ghost function Wrapped(n: nat): nat {
    n % U64
  }

  /** The accumulator with the group `b` added. */
  ghost function Added(k: nat, v: nat, b: nat): nat {
    v + (b * Pow2(7 * k)) % U64
  }

  /** Adding one more group keeps the accumulator below 2^64 and on course. */
  lemma GroupStep(k: nat, v: nat, b: nat, rest: nat)
    requires k < 9 && v < Pow2(7 * k) && b < 128
    ensures Added(k, v, b) < Pow2(7 * (k + 1)) <= U64 / 2
    ensures Added(k, v, b) + Scaled(k + 1, rest) == v + Scaled(k, b + 128 * rest)
  {
    var p := Pow2(7 * k);
    PowerOfGroup(k);
    PowerOfGroup(k + 1);
    hide Pow2;
    GroupFits(p, v, b);
    Distribute(p, b, rest);
  }

  /** Of the last possible group only the lowest bit is left. */
  lemma LastGroup(v: nat, b: nat)
    requires v < Pow2(63) && b < 128
    ensures Added(9, v, b) == Wrapped(v + Scaled(9, b))
  {
    PowerOfGroup(9);
    hide Pow2;
    var p, c, bit := Pow2(63), b / 2, b % 2;
    assert b * p == c * U64 + bit * p;
    WrappedMore(bit * p, c);
    WrappedMore(v + bit * p, c);
  }

  lemma WrappedMore(n: nat, c: nat)
    requires n < U64
    ensures (c * U64 + n) % U64 == n
  {
  }

  lemma PowerOfGroup(k: nat)
    requires k <= 9
    ensures Pow2(7 * k) <= 0x8000_0000_0000_0000
    ensures k == 0 ==> Pow2(7 * k) == 1
    ensures k < 9 ==> Pow2(7 * k) <= 0x100_0000_0000_0000 && Pow2(7 * (k + 1)) == 128 * Pow2(7 * k)
    ensures k == 9 ==> Pow2(7 * k) == 0x8000_0000_0000_0000
  {
    PowersOf128();
    hide Pow2;
    assert k in {0, 1, 2, 3, 4, 5, 6, 7, 8, 9};
  }

  lemma GroupFits(p: nat, v: nat, b: nat)
    requires p <= 0x100_0000_0000_0000 && v < p && b < 128
    ensures (b * p) % U64 == b * p && v + b * p < 128 * p
  {
    assert b * p <= 127 * p;
  }

  lemma Distribute(p: nat, b: nat, rest: nat)
    ensures b * p + (128 * p) * rest == p * (b + 128 * rest)
  {
  }

  /** The seven bits that a byte of a varint contributes. */
  ghost function Low(x: Byte): (n: nat)
    ensures n < 128
  {
    x as int % 128
  }

  lemma {:induction false} VarintReads(d: Bytes, pos: nat, e: nat, k: nat, v: nat)
    requires pos < e <= |d| && k + (e - pos) <= 10 && v < Pow2(7 * k)
    requires IsVarint(d[pos..e])
    ensures Varint(d, pos, 7 * k, v) == Number(Wrapped(v + Scaled(k, Groups(d[pos..e]))), e)
    decreases e - pos
  {
    hide Varint, Scaled, Added, Wrapped, Pow2, Groups, IsVarint, Low;
    VarintGoesOn(d, pos, k, v);
    GroupsOfRest(d, pos, e);
    if e == pos + 1 {
      OneGroup(k, v, Low(d[pos]));
    } else {
      GroupStep(k, v, Low(d[pos]), Groups(d[pos + 1..e]));
      VarintReads(d, pos + 1, e, k + 1, Added(k, v, Low(d[pos])));
    }
  }

  lemma VarintGoesOn(d: Bytes, pos: nat, k: nat, v: nat)
    requires pos < |d| && k < 10
    ensures var v' := Added(k, v, Low(d[pos]));
            Varint(d, pos, 7 * k, v) == if d[pos] < 128 then Number(v', pos + 1) else Varint(d, pos + 1, 7 * (k + 1), v')
  {
    hide Pow2;
    assert 7 * (k + 1) == 7 * k + 7;
  }

  lemma GroupsOfRest(d: Bytes, pos: nat, e: nat)
    requires pos < e <= |d| && IsVarint(d[pos..e])
    ensures e == pos + 1 ==> d[pos] < 128 && Groups(d[pos..e]) == Low(d[pos])
    ensures e > pos + 1 ==> d[pos] >= 128 && IsVarint(d[pos + 1..e])
    ensures e > pos + 1 ==> Groups(d[pos..e]) == Low(d[pos]) + 128 * Groups(d[pos + 1..e])
  {
    assert d[pos..e][0] == d[pos] && d[pos..e][1..] == d[pos + 1..e];
  }

  lemma OneGroup(k: nat, v: nat, b: nat)
    requires k < 10 && v < Pow2(7 * k) && b < 128
    ensures Added(k, v, b) == Wrapped(v + Scaled(k, b))
  {
    hide Added, Pow2, Scaled, Wrapped;
    if k < 9 {
      GroupStep(k, v, b, 0);
      NothingScaled(k + 1);
      NothingWrapped(Added(k, v, b));
    } else {
      LastGroup(v, b);
    }
  }

  lemma NothingWrapped(n: nat)
    requires n < U64
    ensures Wrapped(n) == n
  {
  }

  lemma NothingScaled(k: nat)
    ensures Scaled(k, 0) == 0
  {
  }

  lemma {:induction false} VarintIsSpelled(d: Bytes, pos: nat, k: nat, v: nat)
    requires k <= 10 && Varint(d, pos, 7 * k, v).Number?
    ensures var e := Varint(d, pos, 7 * k, v).end;
            pos < e <= |d| && k + (e - pos) <= 10 && IsVarint(d[pos..e])
    decreases |d| - pos
  {
    assert pos < |d| && 7 * k < 64;
    if d[pos] >= 128 {
      var v' := v + (d[pos] as int % 128 * Pow2(7 * k)) % U64;
      assert Varint(d, pos + 1, 7 * (k + 1), v').Number?;
      VarintIsSpelled(d, pos + 1, k + 1, v');
      var e := Varint(d, pos, 7 * k, v).end;
      assert d[pos..e] == [d[pos]] + d[pos + 1..e];
    }
  }

  // ---- copy operands ----

  /** The flags that the low `n` bits of `x` set. */
  function FlagsOf(x: nat, n: nat): (flags: seq<bool>)
    ensures |flags| == n
  {
    if n == 0 then [] else [x % 2 == 1] + FlagsOf(x / 2, n - 1)
  }

  /** The flags of the offset operands and those of the size operands. */
  lemma FlagsOfSplits(x: nat)
    ensures FlagsOf(x, 7)[..4] == FlagsOf(x, 4) && FlagsOf(x, 7)[4..] == FlagsOf(x / 16, 3)
  {
    FlagsOfPrefix(x, 7, 4);
    FlagsOfDrop(x, 7);
    FlagsOfDrop(x / 2, 6);
    FlagsOfDrop(x / 4, 5);
    FlagsOfDrop(x / 8, 4);
    hide FlagsOf;
    assert x / 2 / 2 == x / 4 && x / 4 / 2 == x / 8 && x / 8 / 2 == x / 16;
    assert FlagsOf(x, 7)[4..] == FlagsOf(x, 7)[1..][1..][1..][1..];
  }

  lemma FlagsOfDrop(x: nat, n: nat)
    requires n > 0
    ensures FlagsOf(x, n)[1..] == FlagsOf(x / 2, n - 1)
  {
  }

  lemma {:induction false} FlagsOfPrefix(x: nat, n: nat, k: nat)
    requires k <= n
    ensures FlagsOf(x, n)[..k] == FlagsOf(x, k)
    decreases k
  {
    if k > 0 {
      FlagsOfPrefix(x / 2, n - 1, k - 1);
      assert FlagsOf(x, n)[..k] == [x % 2 == 1] + FlagsOf(x / 2, n - 1)[..k - 1];
    }
  }

  /** An opcode is made of its flags. */
  lemma {:induction false} BitsOfFlagsOf(x: nat, n: nat)
    requires Pow2(n) <= x < 2 * Pow2(n)
    ensures Pow2(n) + FlagBits(FlagsOf(x, n)) == x
    decreases n
  {
    if n > 0 {
      BitsOfFlagsOf(x / 2, n - 1);
    }
  }

  lemma {:induction false} FlagsOfBits(flags: seq<bool>)
    ensures FlagsOf(Pow2(|flags|) + FlagBits(flags), |flags|) == flags
    decreases |flags|
  {
    if flags != [] {
      FlagsOfBits(flags[1..]);
    }
  }

  /** The operands whose flags are set are read in order, each into its place. */
  lemma {:induction false} OperandsRead(d: Bytes, pos: nat, bits: nat, n: nat, os: Bytes)
    requires |os| == n && At(d, pos, Present(FlagsOf(bits, n), os))
    ensures Operands(d, pos, bits, n) == Number(LittleEndian(FlagsOf(bits, n), os), pos + |Present(FlagsOf(bits, n), os)|)
    decreases n
  {
    if n > 0 {
      var fs := FlagsOf(bits, n);
      assert fs[1..] == FlagsOf(bits / 2, n - 1);
      if fs[0] {
        AtSplit(d, pos, [os[0]], Present(fs[1..], os[1..]));
        AtByte(d, pos, os[0]);
        hide At;
        OperandsRead(d, pos + 1, bits / 2, n - 1, os[1..]);
      } else {
        assert Present(fs, os) == Present(fs[1..], os[1..]);
        hide At;
        OperandsRead(d, pos, bits / 2, n - 1, os[1..]);
      }
    }
  }

  /** What was read as operands is what some operands spell. */
  lemma {:induction false} OperandsAreSpelled(d: Bytes, pos: nat, bits: nat, n: nat) returns (os: Bytes)
    requires pos <= |d| && Operands(d, pos, bits, n).Number?
    ensures |os| == n
    ensures At(d, pos, Present(FlagsOf(bits, n), os))
    ensures Operands(d, pos, bits, n) == Number(LittleEndian(FlagsOf(bits, n), os), pos + |Present(FlagsOf(bits, n), os)|)
    decreases n
  {
    if n == 0 {
      os := [];
    } else {
      var fs := FlagsOf(bits, n);
      assert fs[1..] == FlagsOf(bits / 2, n - 1);
      var rest := OperandsAreSpelled(d, if fs[0] then pos + 1 else pos, bits / 2, n - 1);
      os := [if fs[0] then d[pos] else 0] + rest;
      assert os[1..] == rest;
      if fs[0] {
        ByteAt(d, pos);
        AtJoin(d, pos, [d[pos]], Present(fs[1..], rest));
      }
    }
  }

  lemma {:induction false} PresentSplits(fs: seq<bool>, os: Bytes, n: nat)
    requires |fs| == |os| && n <= |fs|
    ensures Present(fs, os) == Present(fs[..n], os[..n]) + Present(fs[n..], os[n..])
    decreases n
  {
    if n > 0 {
      PresentSplits(fs[1..], os[1..], n - 1);
      assert fs[..n][1..] == fs[1..][..n - 1] && os[..n][1..] == os[1..][..n - 1];
      assert fs[n..] == fs[1..][n - 1..] && os[n..] == os[1..][n - 1..];
    } else {
      assert fs[0..] == fs && os[0..] == os;
    }
  }

  // ---- instructions ----

  /** Executing a spelled instruction yields its chunk, or fails as its meaning does. */
  lemma ExecuteSpelled(base: Bytes, d: Bytes, pos: nat, i: Instruction)
    requires i.Valid() && At(d, pos, Spelled(i))
    ensures pos < |d|
    ensures match Chunk(base, i)
            case Ok(chunk) => Execute(base, d, pos) == Step(chunk, pos + |Spelled(i)|)
            case Err(_) => Execute(base, d, pos).NoStep?
  {
    match i
    case Insert(data) =>
      AtSplit(d, pos, [|data| as Byte], data);
      AtByte(d, pos, |data| as Byte);
    case Copy(flags, operands) => CopyReads(d, pos, i);
  }

  /** The operand bytes of a copy with opcode `op`. */
  function OffsetBytes(op: nat, xs: Bytes): Bytes
    requires |xs| == 4
  {
    Present(FlagsOf(op, 4), xs)
  }

  function SizeBytes(op: nat, ys: Bytes): Bytes
    requires |ys| == 3
  {
    Present(FlagsOf(op / 16, 3), ys)
  }

  /** The operand bytes of a copy stand behind its opcode. */
  ghost predicate CopyBytesAt(d: Bytes, pos: nat, xs: Bytes, ys: Bytes) {
    && pos < |d| && |xs| == 4 && |ys| == 3
    && var op := d[pos] as int;
       && At(d, pos + 1, OffsetBytes(op, xs))
       && At(d, pos + 1 + |OffsetBytes(op, xs)|, SizeBytes(op, ys))
  }

  lemma CopyAt(d: Bytes, pos: nat, xs: Bytes, ys: Bytes)
    requires CopyBytesAt(d, pos, xs, ys)
    ensures var op := d[pos] as int;
            CopyOperands(d, pos) == CopyArgs(LittleEndian(FlagsOf(op, 4), xs), LittleEndian(FlagsOf(op / 16, 3), ys),
                                             pos + 1 + |OffsetBytes(op, xs)| + |SizeBytes(op, ys)|)
  {
    hide At, FlagsOf, Present, Operands, LittleEndian, OffsetBytes, SizeBytes;
    OffsetRead(d, pos + 1, d[pos] as int, xs);
    SizeRead(d, pos + 1 + |OffsetBytes(d[pos] as int, xs)|, d[pos] as int, ys);
  }

  lemma OffsetRead(d: Bytes, pos: nat, op: nat, xs: Bytes)
    requires |xs| == 4 && At(d, pos, OffsetBytes(op, xs))
    ensures Operands(d, pos, op, 4) == Number(LittleEndian(FlagsOf(op, 4), xs), pos + |OffsetBytes(op, xs)|)
  {
    OperandsRead(d, pos, op, 4, xs);
  }

  lemma SizeRead(d: Bytes, pos: nat, op: nat, ys: Bytes)
    requires |ys| == 3 && At(d, pos, SizeBytes(op, ys))
    ensures Operands(d, pos, op / 16, 3) == Number(LittleEndian(FlagsOf(op / 16, 3), ys), pos + |SizeBytes(op, ys)|)
  {
    OperandsRead(d, pos, op / 16, 3, ys);
  }

  /** The operands of a copy were read one after the other. */
  lemma CopyArgsRead(d: Bytes, pos: nat)
    requires pos < |d| && CopyOperands(d, pos).CopyArgs?
    ensures var op := d[pos] as int;
            && Operands(d, pos + 1, op, 4).Number?
            && Operands(d, Operands(d, pos + 1, op, 4).end, op / 16, 3).Number?
  {
    hide Operands;
  }

  lemma CopyWasAt(d: Bytes, pos: nat) returns (xs: Bytes, ys: Bytes)
    requires pos < |d| && CopyOperands(d, pos).CopyArgs?
    ensures CopyBytesAt(d, pos, xs, ys)
  {
    var op := d[pos] as int;
    CopyArgsRead(d, pos);
    hide At, FlagsOf, Present, Operands, LittleEndian, CopyOperands;
    xs := OperandsAreSpelled(d, pos + 1, op, 4);
    ys := OperandsAreSpelled(d, Operands(d, pos + 1, op, 4).end, op / 16, 3);
  }

  /** A copy instruction is spelled by its opcode and its operand bytes. */
  lemma SpelledCopy(fs: seq<bool>, xs: Bytes, ys: Bytes, op: nat)
    requires |fs| == 7 && |xs| == 4 && |ys| == 3 && op == 128 + FlagBits(fs) < 256
    ensures fs[..4] == FlagsOf(op, 4) && fs[4..] == FlagsOf(op / 16, 3)
    ensures (xs + ys)[..4] == xs && (xs + ys)[4..] == ys
    ensures Spelled(Copy(fs, xs + ys)) == [op as Byte] + (OffsetBytes(op, xs) + SizeBytes(op, ys))
  {
    OpcodeFlags(fs, op);
    hide FlagBits, FlagsOf;
    JoinOperands(fs, xs, ys);
    hide Present;
  }

  lemma JoinOperands(fs: seq<bool>, xs: Bytes, ys: Bytes)
    requires |fs| == 7 && |xs| == 4 && |ys| == 3
    ensures (xs + ys)[..4] == xs && (xs + ys)[4..] == ys
    ensures Present(fs, xs + ys) == Present(fs[..4], xs) + Present(fs[4..], ys)
  {
    assert (xs + ys)[..4] == xs && (xs + ys)[4..] == ys;
    PresentSplits(fs, xs + ys, 4);
  }

  lemma CopyReads(d: Bytes, pos: nat, i: Instruction)
    requires i.Valid() && i.Copy? && At(d, pos, Spelled(i))
    ensures pos < |d| && d[pos] >= 128
    ensures CopyOperands(d, pos) == CopyArgs(i.Offset(), LittleEndian(i.flags[4..], i.operands[4..]), pos + |Spelled(i)|)
  {
    var xs, ys := i.operands[..4], i.operands[4..];
    assert i == Copy(i.flags, xs + ys);
    hide Spelled, At, LittleEndian, CopyOperands;
    PartsRead(d, pos, i.flags, xs, ys);
  }

  lemma PartsRead(d: Bytes, pos: nat, fs: seq<bool>, xs: Bytes, ys: Bytes)
    requires |fs| == 7 && |xs| == 4 && |ys| == 3 && At(d, pos, Spelled(Copy(fs, xs + ys)))
    ensures pos < |d| && d[pos] >= 128
    ensures CopyOperands(d, pos) == CopyArgs(LittleEndian(fs[..4], xs), LittleEndian(fs[4..], ys), pos + |Spelled(Copy(fs, xs + ys))|)
  {
    hide FlagBits, LittleEndian, FlagsOf, At, Spelled, CopyOperands, OffsetBytes, SizeBytes;
    FlagBitsBound(fs);
    var op := 128 + FlagBits(fs);
    SpelledCopy(fs, xs, ys, op);
    SplitThree(d, pos, op as Byte, OffsetBytes(op, xs), SizeBytes(op, ys));
    CopyAt(d, pos, xs, ys);
  }

  /** A byte and two strings in a row. */
  lemma SplitThree(d: Bytes, pos: nat, b: Byte, x: Bytes, y: Bytes)
    requires At(d, pos, [b] + (x + y))
    ensures pos < |d| && d[pos] == b && At(d, pos + 1, x) && At(d, pos + 1 + |x|, y)
  {
    AtSplit(d, pos, [b], x + y);
    AtSplit(d, pos + 1, x, y);
    AtByte(d, pos, b);
  }

  lemma JoinThree(d: Bytes, pos: nat, x: Bytes, y: Bytes)
    requires pos < |d| && At(d, pos + 1, x) && At(d, pos + 1 + |x|, y)
    ensures At(d, pos, [d[pos]] + (x + y))
  {
    ByteAt(d, pos);
    AtJoin(d, pos + 1, x, y);
    AtJoin(d, pos, [d[pos]], x + y);
  }

  lemma OpcodeFlags(fs: seq<bool>, op: nat)
    requires |fs| == 7 && op == 128 + FlagBits(fs)
    ensures fs[..4] == FlagsOf(op, 4) && fs[4..] == FlagsOf(op / 16, 3)
  {
    assert Pow2(7) == 128 by { PowersOf128(); }
    FlagsOfBits(fs);
    FlagsOfSplits(op);
  }

  /** `d[pos..e]` spells `i`. */
  ghost predicate SpelledAt(d: Bytes, pos: nat, e: nat, i: Instruction) {
    i.Valid() && At(d, pos, Spelled(i)) && e == pos + |Spelled(i)|
  }

  /** Whatever was executed is spelled by some instruction with the chunk that was yielded. */
  lemma ExecutedIsSpelled(base: Bytes, d: Bytes, pos: nat) returns (i: Instruction)
    requires pos < |d| && Execute(base, d, pos).Step?
    ensures SpelledAt(d, pos, Execute(base, d, pos).end, i) && i.Valid()
    ensures Chunk(base, i) == Ok(Execute(base, d, pos).chunk)
  {
    hide SpelledAt, CopyOperands, Execute, Chunk;
    if d[pos] >= 128 {
      ExecutedCopy(base, d, pos);
      i := CopyIsSpelled(d, pos);
      ChunkOfCopy(base, i);
    } else {
      ExecutedInsert(base, d, pos);
      i := InsertIsSpelled(d, pos, pos + 1 + d[pos] as int);
      ChunkOfInsert(base, i);
    }
  }

  lemma ExecutedCopy(base: Bytes, d: Bytes, pos: nat)
    requires pos < |d| && d[pos] >= 128 && Execute(base, d, pos).Step?
    ensures var c := CopyOperands(d, pos);
            && c.CopyArgs?
            && var n := if c.size == 0 then 0x10000 else c.size;
               c.off + n <= |base| && Execute(base, d, pos) == Step(base[c.off..c.off + n], c.end)
  {
    hide CopyOperands;
  }

  lemma ExecutedInsert(base: Bytes, d: Bytes, pos: nat)
    requires pos < |d| && d[pos] < 128 && Execute(base, d, pos).Step?
    ensures var e := pos + 1 + d[pos] as int;
            0 < d[pos] && e <= |d| && Execute(base, d, pos) == Step(d[pos + 1..e], e)
  {
  }

  lemma ChunkOfCopy(base: Bytes, i: Instruction)
    requires i.Copy? && i.Valid() && i.Offset() + i.Size() <= |base|
    ensures Chunk(base, i) == Ok(base[i.Offset()..i.Offset() + i.Size()])
  {
    hide LittleEndian;
  }

  lemma ChunkOfInsert(base: Bytes, i: Instruction)
    requires i.Insert? && i.Valid()
    ensures Chunk(base, i) == Ok(i.data)
  {
  }

  lemma InsertIsSpelled(d: Bytes, pos: nat, e: nat) returns (i: Instruction)
    requires pos < |d| && 0 < d[pos] < 128 && e == pos + 1 + d[pos] as int <= |d|
    ensures SpelledAt(d, pos, e, i) && i == Insert(d[pos + 1..e])
  {
    i := Insert(d[pos + 1..e]);
    ByteAt(d, pos);
    AtJoin(d, pos, [d[pos]], i.data);
  }

  lemma CopyIsSpelled(d: Bytes, pos: nat) returns (i: Instruction)
    requires pos < |d| && d[pos] >= 128 && CopyOperands(d, pos).CopyArgs?
    ensures var c := CopyOperands(d, pos);
            && i.Copy? && i.Valid() && SpelledAt(d, pos, c.end, i)
            && i.Offset() == c.off && i.Size() == if c.size == 0 then 0x10000 else c.size
  {
    var op := d[pos] as int;
    var fs := FlagsOf(op, 7);
    assert op == 128 + FlagBits(fs) by {
      assert Pow2(7) == 128 by { PowersOf128(); }
      BitsOfFlagsOf(op, 7);
    }
    var xs, ys := CopyWasAt(d, pos);
    hide CopyOperands, CopyBytesAt, FlagsOf, FlagBits, LittleEndian;
    i := CopyFromBytes(d, pos, fs, xs, ys);
  }

  lemma CopyFromBytes(d: Bytes, pos: nat, fs: seq<bool>, xs: Bytes, ys: Bytes) returns (i: Instruction)
    requires CopyBytesAt(d, pos, xs, ys) && |fs| == 7 && d[pos] as int == 128 + FlagBits(fs)
    ensures var c := CopyOperands(d, pos);
            && c.CopyArgs? && i.Copy? && i.Valid() && SpelledAt(d, pos, c.end, i)
            && i.Offset() == c.off && i.Size() == if c.size == 0 then 0x10000 else c.size
  {
    var op := d[pos] as int;
    i := Copy(fs, xs + ys);
    hide LittleEndian, FlagsOf, OffsetBytes, SizeBytes, FlagBits, Spelled, CopyOperands, CopyBytesAt, SpelledAt, At;
    CopyAt(d, pos, xs, ys);
    SpelledCopy(fs, xs, ys, op);
    CopySpelledAt(d, pos, xs, ys, i, op);
  }

  lemma CopySpelledAt(d: Bytes, pos: nat, xs: Bytes, ys: Bytes, i: Instruction, op: nat)
    requires CopyBytesAt(d, pos, xs, ys) && op == d[pos] as int && i.Valid()
    requires Spelled(i) == [op as Byte] + (OffsetBytes(op, xs) + SizeBytes(op, ys))
    ensures SpelledAt(d, pos, pos + 1 + |OffsetBytes(op, xs)| + |SizeBytes(op, ys)|, i)
  {
    hide At, OffsetBytes, SizeBytes, Spelled;
    JoinThree(d, pos, OffsetBytes(op, xs), SizeBytes(op, ys));
  }

  // ---- whole deltas ----

  /** Both failed, or both yielded the same bytes. */
  predicate SameOutcome(x: Result, y: Result) {
    x == y || (x.Err? && y.Err?)
  }

  lemma SamePrefixed(chunk: Bytes, x: Result, y: Result)
    requires SameOutcome(x, y)
    ensures SameOutcome(Prefixed(chunk, x), Prefixed(chunk, y))
  {
  }

  lemma {:induction false} ExecuteAllSpelled(base: Bytes, d: Bytes, pos: nat, code: Code)
    requires CodeAt(d, pos, code)
    ensures pos <= |d| && SameOutcome(ExecuteAll(base, d, pos), Meaning(base, code))
    decreases code
  {
    if code.Then? {
      var e := CodeSplit(d, pos, code);
      hide At, Spelled, SpelledAll, Execute, Chunk, Prefixed, CodeAt, SpelledAt;
      ExecuteSpelled(base, d, pos, code.first);
      ExecuteAllSpelled(base, d, e, code.rest);
      if Chunk(base, code.first).Ok? {
        SamePrefixed(Chunk(base, code.first).value, ExecuteAll(base, d, e), Meaning(base, code.rest));
      }
    }
  }

  /** The code `code` stands in `d` from `pos` to the end. */
  ghost predicate CodeAt(d: Bytes, pos: nat, code: Code) {
    AllValid(code) && At(d, pos, SpelledAll(code)) && pos + |SpelledAll(code)| == |d|
  }

  lemma CodeCons(d: Bytes, pos: nat, e: nat, i: Instruction, rest: Code)
    requires SpelledAt(d, pos, e, i) && CodeAt(d, e, rest)
    ensures CodeAt(d, pos, Then(i, rest))
  {
    hide At, Spelled;
    AtJoin(d, pos, Spelled(i), SpelledAll(rest));
  }

  lemma CodeSplit(d: Bytes, pos: nat, code: Code) returns (e: nat)
    requires code.Then? && CodeAt(d, pos, code)
    ensures e == pos + |Spelled(code.first)| && At(d, pos, Spelled(code.first)) && CodeAt(d, e, code.rest)
  {
    hide At, Spelled;
    e := pos + |Spelled(code.first)|;
    AtSplit(d, pos, Spelled(code.first), SpelledAll(code.rest));
  }

  lemma {:induction false} ExecutedAllIsSpelled(base: Bytes, d: Bytes, pos: nat) returns (code: Code)
    requires pos <= |d| && ExecuteAll(base, d, pos).Ok?
    ensures CodeAt(d, pos, code) && Meaning(base, code) == ExecuteAll(base, d, pos)
    decreases |d| - pos
  {
    if pos == |d| {
      code := End;
    } else {
      hide CodeAt, SpelledAt, Execute, Chunk, Prefixed;
      var i := ExecutedIsSpelled(base, d, pos);
      SpelledAtIsValid(d, pos, Execute(base, d, pos).end, i);
      PrefixedOk(Execute(base, d, pos).chunk, ExecuteAll(base, d, Execute(base, d, pos).end));
      var rest := ExecutedAllIsSpelled(base, d, Execute(base, d, pos).end);
      code := Then(i, rest);
      CodeCons(d, pos, Execute(base, d, pos).end, i, rest);
      CodeAtIsValid(d, pos, code);
    }
  }

  lemma PrefixedOk(chunk: Bytes, r: Result)
    ensures Prefixed(chunk, r).Ok? <==> r.Ok?
  {
  }

  lemma SpelledAtIsValid(d: Bytes, pos: nat, e: nat, i: Instruction)
    requires SpelledAt(d, pos, e, i)
    ensures i.Valid()
  {
  }

  lemma CodeAtIsValid(d: Bytes, pos: nat, code: Code)
    requires CodeAt(d, pos, code)
    ensures AllValid(code)
  {
  }

  /** A varint that is spelled at `pos` is read, and nothing else is. */
  lemma VarintAt(d: Bytes, pos: nat, s: Bytes)
    requires IsVarint(s) && At(d, pos, s)
    ensures Varint(d, pos, 0, 0) == Number(Groups(s) % U64, pos + |s|)
  {
    VarintReads(d, pos, pos + |s|, 0, 0);
    assert Scaled(0, Groups(s)) == Groups(s);
  }

  lemma VarintWasAt(d: Bytes, pos: nat) returns (s: Bytes)
    requires Varint(d, pos, 0, 0).Number?
    ensures IsVarint(s) && At(d, pos, s) && Varint(d, pos, 0, 0) == Number(Groups(s) % U64, pos + |s|)
  {
    VarintIsSpelled(d, pos, 0, 0);
    s := d[pos..Varint(d, pos, 0, 0).end];
    VarintAt(d, pos, s);
  }

  /** The sizes are read from the varints that spell them. */
  lemma SizesAt(d: Bytes, src: Bytes, tgt: Bytes)
    requires IsVarint(src) && IsVarint(tgt) && At(d, 0, src) && At(d, |src|, tgt)
    ensures Varint(d, 0, 0, 0) == Number(Groups(src) % U64, |src|)
    ensures Sizes(d) == Header(Groups(src) % U64, Groups(tgt) % U64, |src| + |tgt|)
  {
    hide At, IsVarint, Groups, Varint;
    VarintAt(d, 0, src);
    VarintAt(d, |src|, tgt);
  }

  lemma SizesWereAt(d: Bytes) returns (src: Bytes, tgt: Bytes)
    requires Sizes(d).Header?
    ensures IsVarint(src) && IsVarint(tgt) && At(d, 0, src) && At(d, |src|, tgt)
  {
    hide At, IsVarint, Groups, Varint;
    src := VarintWasAt(d, 0);
    tgt := VarintWasAt(d, |src|);
  }

  /** The three parts of a spelled delta stand one behind the other. */
  lemma SplitParts(d: Bytes, src: Bytes, tgt: Bytes, rest: Bytes)
    requires d == src + tgt + rest
    ensures At(d, 0, src) && At(d, |src|, tgt) && At(d, |src| + |tgt|, rest) && |src| + |tgt| + |rest| == |d|
  {
    assert At(d, 0, src + tgt + rest);
    AtSplit(d, 0, src + tgt, rest);
    AtSplit(d, 0, src, tgt);
  }

  lemma JoinParts(d: Bytes, src: Bytes, tgt: Bytes, rest: Bytes)
    requires At(d, 0, src) && At(d, |src|, tgt) && At(d, |src| + |tgt|, rest) && |src| + |tgt| + |rest| == |d|
    ensures d == src + tgt + rest
  {
    AtJoin(d, 0, src, tgt);
    AtJoin(d, 0, src + tgt, rest);
    WholeAt(d, src + tgt + rest);
  }

  /** A delta whose parts stand where they should is applied. */
  lemma PartsAreApplied(base: Bytes, d: Bytes, target: Bytes, src: Bytes, tgt: Bytes, code: Code)
    requires IsVarint(src) && IsVarint(tgt) && At(d, 0, src) && At(d, |src|, tgt) && CodeAt(d, |src| + |tgt|, code)
    requires Groups(src) % U64 == |base| && Groups(tgt) % U64 == |target|
    requires AllValid(code) && Meaning(base, code) == Ok(target)
    ensures Applied(base, d) == Ok(target)
  {
    hide At, IsVarint, Groups, Meaning, ExecuteAll, SpelledAll, AllValid, Varint, Sizes, CodeAt;
    SizesAt(d, src, tgt);
    ExecuteAllSpelled(base, d, |src| + |tgt|, code);
  }

  lemma SpelledIsApplied(base: Bytes, d: Bytes, target: Bytes, src: Bytes, tgt: Bytes, code: Code)
    requires SpelledWith(base, d, target, src, tgt, code)
    ensures Applied(base, d) == Ok(target)
  {
    hide At, IsVarint, Groups, Meaning, SpelledAll, AllValid, Applied;
    SplitParts(d, src, tgt, SpelledAll(code));
    PartsAreApplied(base, d, target, src, tgt, code);
  }

  lemma AppliedIsSpelled(base: Bytes, d: Bytes)
    requires Applied(base, d).Ok?
    ensures Spells(base, d, Applied(base, d).value)
  {
    hide At, IsVarint, Groups, Meaning, ExecuteAll, SpelledAll, Varint, Sizes;
    var src, tgt := SizesWereAt(d);
    SizesAt(d, src, tgt);
    var code := ExecutedAllIsSpelled(base, d, |src| + |tgt|);
    JoinParts(d, src, tgt, SpelledAll(code));
    assert SpelledWith(base, d, Applied(base, d).value, src, tgt, code);
  }

  /** For every base and every byte string: the decoder returns `target` if and only if the
      string spells a delta for the base whose meaning is `target`. */
  lemma AppliesExactlyTheFormat(base: Bytes, d: Bytes, target: Bytes)
    ensures Applied(base, d) == Ok(target) <==> Spells(base, d, target)
  {
    if Applied(base, d) == Ok(target) {
      AppliedIsSpelled(base, d);
    }
    if Spells(base, d, target) {
      var src: Bytes, tgt: Bytes, code: Code :| SpelledWith(base, d, target, src, tgt, code);
      SpelledIsApplied(base, d, target, src, tgt, code);
    }
  }

  // ---- a size that wraps around ----

  /** A varint of `k + 1` bytes that stands for twice the `k`-th power of 128. */
  function TwicePower(k: nat): (s: Bytes)
    ensures |s| == k + 1 && s[k] == 2 && forall i :: 0 <= i < k ==> s[i] == 128
  {
    if k == 0 then [2] else [128] + TwicePower(k - 1)
  }

  lemma TwicePowerGroups(k: nat)
    ensures Groups(TwicePower(0)) == 2 && Groups(TwicePower(k + 1)) == 128 * Groups(TwicePower(k))
  {
    assert TwicePower(k + 1)[1..] == TwicePower(k);
    assert TwicePower(0)[1..] == [];
  }

  lemma WrappedSize()
    ensures Groups(TwicePower(9)) == U64
  {
    TwicePowerGroups(0);
    TwicePowerGroups(1);
    TwicePowerGroups(2);
    TwicePowerGroups(3);
    TwicePowerGroups(4);
    TwicePowerGroups(5);
    TwicePowerGroups(6);
    TwicePowerGroups(7);
    TwicePowerGroups(8);
    hide TwicePower, Groups;
  }

  /** A delta that declares a base of 2^64 bytes is accepted for the empty base. */
  lemma WrappedSizeIsAccepted()
    ensures Groups(TwicePower(9)) == U64
    ensures Applied([], TwicePower(9) + [0]) == Ok([])
  {
    WrappedSize();
    hide TwicePower, Applied, Spells;
    EmptyIsSpelled(TwicePower(9), [0]);
    AppliesExactlyTheFormat([], TwicePower(9) + [0], []);
  }

  lemma EmptyIsSpelled(src: Bytes, tgt: Bytes)
    requires IsVarint(src) && tgt == [0] && Groups(src) == U64
    ensures Spells([], src + tgt, [])
  {
    assert tgt[1..] == [];
    assert Groups(tgt) == 0 && IsVarint(tgt);
    hide Groups, IsVarint;
    assert src + tgt == src + tgt + SpelledAll(End);
    assert SpelledWith([], src + tgt, [], src, tgt, End);
  }
}
