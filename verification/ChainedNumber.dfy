/** Numbers of seven bits a byte, the highest first, where every byte that goes on adds one. They
    are shared by distances to delta bases and by paths of index version 4. Every number has
    exactly one spelling. */
module ChainedNumber {
  import opened GitIndex
  import opened Octets
  import opened Places

  /** All bytes but the last have the top bit set. */
  ghost predicate IsChain(b: Bytes) {
    b != [] && b[|b| - 1] < 128 && forall k :: 0 <= k < |b| - 1 ==> b[k] >= 128
  }

  /** What a chain stands for. The bytes up to the last stand for one more. */
  function ChainValue(b: Bytes): nat
    requires b != []
  {
    if |b| == 1 then b[0] as int % 128
    else (ChainValue(b[..|b| - 1]) + 1) * 128 + b[|b| - 1] as int % 128
  }

  /** The bytes of `n` that go on. */
  function Going(n: nat): (b: Bytes)
    ensures b != [] && forall k :: 0 <= k < |b| ==> b[k] >= 128
  {
    (if n < 128 then [] else Going(n / 128 - 1)) + [(128 + n % 128) as Byte]
  }

  /** The spelling of `n`. */
  function Chained(n: nat): (b: Bytes)
    ensures IsChain(b)
  {
    (if n < 128 then [] else Going(n / 128 - 1)) + [(n % 128) as Byte]
  }

  lemma Split(v: nat, low: nat)
    requires low < 128
    ensures ((v + 1) * 128 + low) / 128 == v + 1 && ((v + 1) * 128 + low) % 128 == low
    ensures (v + 1) * 128 + low >= 128
  {
  }

  lemma ValueStep(high: Bytes, last: Byte)
    ensures ChainValue(high + [last]) == (if high == [] then 0 else (ChainValue(high) + 1) * 128) + last as int % 128
  {
    assert (high + [last])[..|high|] == high;
  }

  lemma GoingStep(v: nat, low: nat)
    requires low < 128
    ensures Going((v + 1) * 128 + low) == Going(v) + [(128 + low) as Byte]
    ensures Chained((v + 1) * 128 + low) == Going(v) + [low as Byte]
  {
    Split(v, low);
  }

  lemma OneByte(low: nat)
    requires low < 128
    ensures Chained(low) == [low as Byte] && Going(low) == [(128 + low) as Byte]
  {
  }

  lemma Halves(n: nat) returns (v: nat, low: nat)
    requires n >= 128
    ensures n == (v + 1) * 128 + low && low < 128 && v < n
  {
    v, low := n / 128 - 1, n % 128;
  }

  lemma {:induction false} GoingValue(n: nat)
    ensures ChainValue(Going(n)) == n
    decreases n
  {
    hide Going, ChainValue;
    if n < 128 {
      OneByte(n);
      ValueStep([], (128 + n) as Byte);
      assert [] + [(128 + n) as Byte] == [(128 + n) as Byte];
    } else {
      var v, low := Halves(n);
      GoingStep(v, low);
      GoingValue(v);
      ValueStep(Going(v), (128 + low) as Byte);
    }
  }

  /** What is spelled is the number. */
  lemma ChainedValue(n: nat)
    ensures ChainValue(Chained(n)) == n
  {
    hide Going, Chained, ChainValue;
    if n < 128 {
      OneByte(n);
      ValueStep([], n as Byte);
      assert [] + [n as Byte] == [n as Byte];
    } else {
      var v, low := Halves(n);
      GoingStep(v, low);
      GoingValue(v);
      ValueStep(Going(v), low as Byte);
    }
  }

  lemma {:induction false} GoingIsUnique(b: Bytes)
    requires b != [] && forall k :: 0 <= k < |b| ==> b[k] >= 128
    ensures Going(ChainValue(b)) == b
    decreases |b|
  {
    hide Going, ChainValue;
    var high, last := b[..|b| - 1], b[|b| - 1];
    var low := last as int - 128;
    assert b == high + [last];
    ValueStep(high, last);
    if high == [] {
      OneByte(low);
    } else {
      GoingIsUnique(high);
      GoingStep(ChainValue(high), low);
    }
  }

  /** There is no other spelling. */
  lemma ChainIsUnique(b: Bytes)
    requires IsChain(b)
    ensures Chained(ChainValue(b)) == b
  {
    hide Going, Chained, ChainValue;
    var high, last := b[..|b| - 1], b[|b| - 1];
    assert b == high + [last];
    ValueStep(high, last);
    if high == [] {
      OneByte(last as int);
    } else {
      GoingIsUnique(high);
      GoingStep(ChainValue(high), last as int);
    }
  }

  // ---- reading ----

  /** A chain of at most 64 bits is read as its value (crates/alt-git-index/src/lib.rs). */
  lemma ChainIsRead(d: Bytes, pos: nat, b: Bytes)
    requires IsChain(b) && At(d, pos, b) && ChainValue(b) < U64
    ensures ChainedVarint(d, pos) == Number(ChainValue(b), pos + |b|)
  {
    assert d[pos] == d[pos..pos + |b|][0] == b[0];
    assert b[..1] == [b[0]];
    ChainFromIsRead(d, pos, b, 1);
  }

  lemma {:induction false} ChainFromIsRead(d: Bytes, pos: nat, b: Bytes, k: nat)
    requires IsChain(b) && At(d, pos, b) && 1 <= k <= |b| && ChainValue(b) < U64
    ensures ChainedFrom(d, pos + k, b[k - 1], ChainValue(b[..k])) == Number(ChainValue(b), pos + |b|)
    decreases |b| - k
  {
    hide ChainValue;
    if k == |b| {
      assert b[..k] == b;
    } else {
      assert d[pos + k] == d[pos..pos + |b|][k] == b[k];
      assert b[..k + 1] == b[..k] + [b[k]];
      ValueStep(b[..k], b[k]);
      ChainGrows(b, k + 1);
      ChainFromIsRead(d, pos, b, k + 1);
      hide At, IsChain;
      var v := ChainValue(b[..k]);
      assert (v + 1) * 128 % U64 == (v + 1) * 128;
    }
  }

  lemma {:induction false} ChainGrows(b: Bytes, k: nat)
    requires 1 <= k <= |b|
    ensures ChainValue(b[..k]) <= ChainValue(b)
    decreases |b|
  {
    if k == |b| {
      assert b[..k] == b;
    } else {
      ChainGrows(b[..|b| - 1], k);
      assert b[..|b| - 1][..k] == b[..k];
    }
  }

  // ---- paths of index version 4 ----

  /** A path of version 4: how much to take off the path before it, what to put there, and a NUL. */
  function CompressedPath(strip: nat, suffix: Bytes): Bytes {
    Chained(strip) + (suffix + [0])
  }

  /** A compressed path is read as the path it was made from. */
  lemma CompressedPathIsRead(d: Bytes, pos: nat, prev: Bytes, path: Bytes, keep: nat)
    requires keep <= |prev| && keep <= |path| && prev[..keep] == path[..keep] && |prev| < U64
    requires 0 !in path && At(d, pos, CompressedPath(|prev| - keep, path[keep..]))
    ensures PathV4(d, pos, prev) == PathRead(path, pos + |CompressedPath(|prev| - keep, path[keep..])|, path)
  {
    hide Chained, ChainedVarint, At, ChainValue, IsChain, FindNul;
    var strip, suffix := |prev| - keep, path[keep..];
    var p := pos + |Chained(strip)|;
    AtSplit(d, pos, Chained(strip), suffix + [0]);
    AtSplit(d, p, suffix, [0]);
    AtByte(d, p + |suffix|, 0);
    ChainedValue(strip);
    ChainIsRead(d, pos, Chained(strip));
    SuffixEnds(d, p, suffix);
    assert prev[..keep] + suffix == path;
  }

  lemma SuffixEnds(d: Bytes, p: nat, suffix: Bytes)
    requires At(d, p, suffix) && 0 !in suffix && p + |suffix| < |d| && d[p + |suffix|] == 0
    ensures p <= |d| && FindNul(d, p) == p + |suffix| && d[p..p + |suffix|] == suffix
  {
    forall k | p <= k < p + |suffix|
      ensures d[k] != 0
    {
      assert d[p..p + |suffix|][k - p] == d[k];
      assert suffix[k - p] in suffix;
    }
    NulIsFound(d, p, p + |suffix|);
  }
}
