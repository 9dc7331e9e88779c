/** Deltas of pack entries (crates/alt-git-pack/src/delta.rs; git's gitformat-pack, section
    "Deltified representation").

    A delta is two size varints and a list of instructions. `Meaning` says what that list
    stands for, and `Spells` how sizes and instructions are written down. `Apply` is the
    decoder of the source. It accepts exactly the byte strings that spell a delta for the
    base, and returns what the delta stands for. */
module Delta {
  import opened Octets

  datatype Error =
    | TruncatedVarint | VarintTooLong | SourceSizeMismatch | TargetSizeMismatch
    | TruncatedOperands | CopyOutOfBounds | TruncatedInsert | ReservedOpcode

  /** The bytes made by a delta or by some of its instructions. */
  datatype Result = Ok(value: Bytes) | Err(error: Error)

  /** A number read from the delta, and the position behind it. */
  datatype Number = Number(value: nat, end: nat) | NoNumber(error: Error)

  /** The offset and size of a copy as written, and the position behind them. */
  datatype CopyArgs = CopyArgs(off: nat, size: nat, end: nat) | NoCopyArgs(error: Error)

  /** The bytes that one instruction yields, and the position behind it. */
  datatype Step = Step(chunk: Bytes, end: nat) | NoStep(error: Error)

  /** The source and target sizes, and the position behind them. */
  datatype Header = Header(src: nat, tgt: nat, end: nat) | NoHeader(error: Error)

  const U64: nat := 0x1_0000_0000_0000_0000

  // ---- what a delta stands for ----

  /** One instruction: copy operands with the flags that say which are present, or literal bytes. */
  datatype Instruction = Copy(flags: seq<bool>, operands: Bytes) | Insert(data: Bytes) {
    predicate Valid() {
      match this
      case Copy(flags, operands) => |flags| == 7 && |operands| == 7
      case Insert(data) => 1 <= |data| <= 127
    }

    /** The first four operands make the offset, the last three the size; an absent one is 0. */
    function Offset(): nat
      requires Copy? && Valid()
    {
      LittleEndian(flags[..4], operands[..4])
    }

    /** A size of 0 stands for 0x10000. */
    function Size(): nat
      requires Copy? && Valid()
    {
      var n := LittleEndian(flags[4..], operands[4..]);
      if n == 0 then 0x10000 else n
    }
  }

  /** A list of instructions. */
  datatype Code = End | Then(first: Instruction, rest: Code)

  predicate AllValid(code: Code) {
    code.Then? ==> code.first.Valid() && AllValid(code.rest)
  }

  function LittleEndian(flags: seq<bool>, operands: Bytes): nat
    requires |flags| == |operands|
  {
    if flags == [] then 0
    else (if flags[0] then operands[0] as int else 0) + 256 * LittleEndian(flags[1..], operands[1..])
  }

  function Prefixed(out: Bytes, rest: Result): Result {
    match rest
    case Err(e) => Err(e)
    case Ok(bytes) => Ok(out + bytes)
  }

  /** The bytes that a list of instructions makes out of the base, if no copy leaves the base. */
  function Meaning(base: Bytes, code: Code): Result
    requires AllValid(code)
  {
    match code
    case End => Ok([])
    case Then(first, rest) =>
      match Chunk(base, first)
      case Err(e) => Err(e)
      case Ok(chunk) => Prefixed(chunk, Meaning(base, rest))
  }

  function Chunk(base: Bytes, i: Instruction): Result
    requires i.Valid()
  {
    match i
    case Insert(data) => Ok(data)
    case Copy(_, _) =>
      if i.Offset() + i.Size() <= |base| then Ok(base[i.Offset()..i.Offset() + i.Size()])
      else Err(CopyOutOfBounds)
  }

  // ---- how it is written down ----

  /** The value of a varint: seven bits a byte, the lowest first. */
  function Groups(bytes: Bytes): nat {
    if bytes == [] then 0 else bytes[0] as int % 128 + 128 * Groups(bytes[1..])
  }

  /** `bytes` is a varint: one to ten bytes, of which exactly the last has the top bit clear. */
  ghost predicate IsVarint(bytes: Bytes) {
    && 1 <= |bytes| <= 10
    && (forall k :: 0 <= k < |bytes| - 1 ==> bytes[k] >= 128)
    && bytes[|bytes| - 1] < 128
  }

  function FlagBits(flags: seq<bool>): nat {
    if flags == [] then 0 else (if flags[0] then 1 else 0) + 2 * FlagBits(flags[1..])
  }

  function Present(flags: seq<bool>, operands: Bytes): Bytes
    requires |flags| == |operands|
  {
    if flags == [] then []
    else (if flags[0] then [operands[0]] else []) + Present(flags[1..], operands[1..])
  }

  lemma {:induction false} FlagBitsBound(flags: seq<bool>)
    requires |flags| <= 7
    ensures FlagBits(flags) < 128
    ensures |flags| <= 6 ==> FlagBits(flags) < 64
    ensures |flags| <= 5 ==> FlagBits(flags) < 32
    ensures |flags| <= 4 ==> FlagBits(flags) < 16
    ensures |flags| <= 3 ==> FlagBits(flags) < 8
    ensures |flags| <= 2 ==> FlagBits(flags) < 4
    ensures |flags| <= 1 ==> FlagBits(flags) < 2
    ensures |flags| == 0 ==> FlagBits(flags) == 0
    decreases |flags|
  {
    if flags != [] {
      FlagBitsBound(flags[1..]);
    }
  }

  function Spelled(i: Instruction): Bytes
    requires i.Valid()
  {
    match i
    case Insert(data) => [|data| as Byte] + data
    case Copy(flags, operands) =>
      FlagBitsBound(flags);
      [(128 + FlagBits(flags)) as Byte] + Present(flags, operands)
  }

  function SpelledAll(code: Code): Bytes
    requires AllValid(code)
  {
    match code
    case End => []
    case Then(first, rest) => Spelled(first) + SpelledAll(rest)
  }

  /** `delta` spells a delta for `base` whose meaning is `target`. Declared sizes count modulo
      2^64 only. */
  ghost predicate Spells(base: Bytes, delta: Bytes, target: Bytes) {
    exists src: Bytes, tgt: Bytes, code: Code :: SpelledWith(base, delta, target, src, tgt, code)
  }

  ghost predicate SpelledWith(base: Bytes, delta: Bytes, target: Bytes, src: Bytes, tgt: Bytes, code: Code) {
    && IsVarint(src) && IsVarint(tgt) && AllValid(code)
    && delta == src + tgt + SpelledAll(code)
    && Groups(src) % U64 == |base| && Groups(tgt) % U64 == |target|
    && Meaning(base, code) == Ok(target)
  }

  // ---- the decoder, as functions ----

  /** Reads a varint at `pos`. */
  function Varint(d: Bytes, pos: nat, shift: nat, v: nat): (r: Number)
    ensures r.Number? ==> pos < r.end <= |d|
    decreases |d| - pos
  {
    if pos >= |d| then NoNumber(TruncatedVarint)
    else if shift >= 64 then NoNumber(VarintTooLong)
    else
      var v' := v + (d[pos] as int % 128 * Pow2(shift)) % U64;
      if d[pos] < 128 then Number(v', pos + 1) else Varint(d, pos + 1, shift + 7, v')
  }

  function Pow2(n: nat): (p: nat)
    ensures p > 0
  {
    if n == 0 then 1 else 2 * Pow2(n - 1)
  }

  /** Reads the copy operands that the low `n` bits announce, each into its place. */
  function Operands(d: Bytes, pos: nat, bits: nat, n: nat): (r: Number)
    ensures r.Number? ==> pos <= r.end && (pos <= |d| ==> r.end <= |d|)
    decreases n
  {
    if n == 0 then Number(0, pos)
    else if bits % 2 == 0 then
      match Operands(d, pos, bits / 2, n - 1)
      case NoNumber(e) => NoNumber(e)
      case Number(v, p) => Number(256 * v, p)
    else if pos >= |d| then NoNumber(TruncatedOperands)
    else
      match Operands(d, pos + 1, bits / 2, n - 1)
      case NoNumber(e) => NoNumber(e)
      case Number(v, p) => Number(d[pos] as int + 256 * v, p)
  }

  /** Reads both operands of a copy at `pos`. */
  function CopyOperands(d: Bytes, pos: nat): (r: CopyArgs)
    requires pos < |d|
    ensures r.CopyArgs? ==> pos < r.end <= |d|
  {
    match Operands(d, pos + 1, d[pos] as int, 4)
    case NoNumber(e) => NoCopyArgs(e)
    case Number(off, p) =>
      match Operands(d, p, d[pos] as int / 16, 3)
      case NoNumber(e) => NoCopyArgs(e)
      case Number(n, q) => CopyArgs(off, n, q)
  }

  /** Executes the instruction at `pos`. */
  function Execute(base: Bytes, d: Bytes, pos: nat): (r: Step)
    requires pos < |d|
    ensures r.Step? ==> pos < r.end <= |d|
  {
    var op := d[pos] as int;
    if op >= 128 then
      match CopyOperands(d, pos)
      case NoCopyArgs(e) => NoStep(e)
      case CopyArgs(off, n, q) =>
        var len := if n == 0 then 0x10000 else n;
        if off + len <= |base| then Step(base[off..off + len], q) else NoStep(CopyOutOfBounds)
    else if op != 0 then
      if pos + 1 + op <= |d| then Step(d[pos + 1..pos + 1 + op], pos + 1 + op) else NoStep(TruncatedInsert)
    else NoStep(ReservedOpcode)
  }

  function ExecuteAll(base: Bytes, d: Bytes, pos: nat): Result
    requires pos <= |d|
    decreases |d| - pos
  {
    if pos == |d| then Ok([])
    else
      match Execute(base, d, pos)
      case NoStep(e) => Err(e)
      case Step(chunk, p) => Prefixed(chunk, ExecuteAll(base, d, p))
  }

  /** The two sizes at the head of a delta. */
  function Sizes(d: Bytes): (r: Header)
    ensures r.Header? ==> r.end <= |d|
  {
    match Varint(d, 0, 0, 0)
    case NoNumber(e) => NoHeader(e)
    case Number(src, p) =>
      match Varint(d, p, 0, 0)
      case NoNumber(e) => NoHeader(e)
      case Number(tgt, q) => Header(src, tgt, q)
  }

  /** The decoder as a function of base and delta. */
  function Applied(base: Bytes, d: Bytes): Result {
    var src := Varint(d, 0, 0, 0);
    if src.Number? && src.value != |base| then Err(SourceSizeMismatch)
    else
      match Sizes(d)
      case NoHeader(e) => Err(e)
      case Header(_, tgt, q) =>
        match ExecuteAll(base, d, q)
        case Err(e) => Err(e)
        case Ok(out) => if |out| == tgt then Ok(out) else Err(TargetSizeMismatch)
  }

  // ---- the algorithm ----

  method ReadVarint(d: Bytes, pos0: nat) returns (r: Number)
    ensures r == Varint(d, pos0, 0, 0)
  {
    var pos: nat, v: nat, shift: nat := pos0, 0, 0;
    while true
      invariant Varint(d, pos, shift, v) == Varint(d, pos0, 0, 0)
      decreases |d| - pos
    {
      if pos >= |d| {
        return NoNumber(TruncatedVarint);
      }
      var b := d[pos];
      if shift >= 64 {
        return NoNumber(VarintTooLong);
      }
      v := v + (b as int % 128 * Pow2(shift)) % U64;
      pos := pos + 1;
      if b < 128 {
        return Number(v, pos);
      }
      shift := shift + 7;
    }
  }

  /** Reads the operands whose opcode bits are set, each into its place. */
  method ReadOperands(d: Bytes, pos0: nat, bits0: nat, n: nat) returns (r: Number)
    ensures r == Operands(d, pos0, bits0, n)
  {
    var pos: nat, v: nat, bits: nat, place: nat := pos0, 0, bits0, 1;
    for i := 0 to n
      invariant Operands(d, pos0, bits0, n) == Placed(v, place, Operands(d, pos, bits, n - i))
    {
      PlacedStep(d, pos, bits, n - i, v, place);
      if bits % 2 != 0 {
        if pos >= |d| {
          return NoNumber(TruncatedOperands);
        }
        v := v + d[pos] as int * place;
        pos := pos + 1;
      }
      bits, place := bits / 2, place * 256;
    }
    r := Number(v, pos);
  }

  /** `v` and what is still to be read, at its place. */
  function Placed(v: nat, place: nat, rest: Number): Number {
    match rest
    case NoNumber(e) => NoNumber(e)
    case Number(w, p) => Number(v + place * w, p)
  }

  lemma PlacedStep(d: Bytes, pos: nat, bits: nat, n: nat, v: nat, place: nat)
    requires n > 0
    ensures var here := Placed(v, place, Operands(d, pos, bits, n));
            if bits % 2 == 0 then here == Placed(v, place * 256, Operands(d, pos, bits / 2, n - 1))
            else if pos >= |d| then here == NoNumber(TruncatedOperands)
            else here == Placed(v + d[pos] as int * place, place * 256, Operands(d, pos + 1, bits / 2, n - 1))
  {
    var next := Operands(d, if bits % 2 == 0 then pos else pos + 1, bits / 2, n - 1);
    if next.Number? {
      Place(v, place, 0, next.value);
      if pos < |d| {
        Place(v, place, d[pos] as int, next.value);
      }
    }
  }

  lemma Place(v: nat, place: nat, b: nat, w: nat)
    ensures v + place * (b + 256 * w) == v + b * place + (place * 256) * w
  {
  }

  /** Applies a delta to its base. */
  method Apply(base: Bytes, delta: Bytes) returns (r: Result)
    ensures r == Applied(base, delta)
  {
    var src := ReadVarint(delta, 0);
    if src.NoNumber? {
      return Err(src.error);
    }
    if src.value != |base| {
      return Err(SourceSizeMismatch);
    }
    var tgt := ReadVarint(delta, src.end);
    if tgt.NoNumber? {
      return Err(tgt.error);
    }
    var out := RunInstructions(base, delta, tgt.end);
    if out.Err? {
      return out;
    }
    if |out.value| != tgt.value {
      return Err(TargetSizeMismatch);
    }
    r := out;
  }

  method RunInstructions(base: Bytes, delta: Bytes, start: nat) returns (r: Result)
    requires start <= |delta|
    ensures r == ExecuteAll(base, delta, start)
  {
    var pos, out := start, [];
    PrefixedNothing(ExecuteAll(base, delta, start));
    while pos < |delta|
      invariant start <= pos <= |delta|
      invariant ExecuteAll(base, delta, start) == Prefixed(out, ExecuteAll(base, delta, pos))
    {
      var step := RunInstruction(base, delta, pos);
      if step.NoStep? {
        return Err(step.error);
      }
      PrefixedTwice(out, step.chunk, ExecuteAll(base, delta, step.end));
      out := out + step.chunk;
      pos := step.end;
    }
    assert out + [] == out;
    r := Ok(out);
  }

  lemma PrefixedNothing(rest: Result)
    ensures Prefixed([], rest) == rest
  {
    if rest.Ok? {
      assert [] + rest.value == rest.value;
    }
  }

  lemma PrefixedTwice(out: Bytes, chunk: Bytes, rest: Result)
    ensures Prefixed(out, Prefixed(chunk, rest)) == Prefixed(out + chunk, rest)
  {
    if rest.Ok? {
      assert out + (chunk + rest.value) == out + chunk + rest.value;
    }
  }

  method RunInstruction(base: Bytes, delta: Bytes, pos: nat) returns (r: Step)
    requires pos < |delta|
    ensures r == Execute(base, delta, pos)
  {
    hide Operands;
    var op := delta[pos] as int;
    if op >= 128 {
      var off := ReadOperands(delta, pos + 1, op, 4);
      if off.NoNumber? {
        return NoStep(off.error);
      }
      var len := ReadOperands(delta, off.end, op / 16, 3);
      if len.NoNumber? {
        return NoStep(len.error);
      }
      var n := if len.value == 0 then 0x10000 else len.value;
      if off.value + n > |base| {
        return NoStep(CopyOutOfBounds);
      }
      return Step(base[off.value..off.value + n], len.end);
    } else if op != 0 {
      if pos + 1 + op > |delta| {
        return NoStep(TruncatedInsert);
      }
      return Step(delta[pos + 1..pos + 1 + op], pos + 1 + op);
    } else {
      return NoStep(ReservedOpcode);
    }
  }
}
