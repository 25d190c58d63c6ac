/** Bytes, little-endian numbers and index blocks, as the C structures lay them out. */
module FsCodec {
  import opened FsLayout

  type byte = x: int | 0 <= x < 256
  type Bytes = seq<byte>

  function Zeros(n: nat): (b: Bytes)
    ensures |b| == n
  {
    seq(n, _ => 0)
  }

  type Block = b: Bytes | |b| == BLOCK_SIZE ghost witness Zeros(BLOCK_SIZE)

  const ZERO_BLOCK: Block := Zeros(BLOCK_SIZE)

  // ---- little-endian numbers ----

  function Pow256(n: nat): Positive { if n == 0 then 1 else 256 * Pow256(n - 1) }

  /** The n low-order bytes of x, least significant first. */
  function LeBytes(x: nat, n: nat): (b: Bytes)
    ensures |b| == n
    decreases n
  {
    if n == 0 then [] else [x % 256] + LeBytes(x / 256, n - 1)
  }

  function LeNat(b: Bytes): nat {
    if b == [] then 0 else b[0] + 256 * LeNat(b[1..])
  }

  lemma {:induction false} LeRoundTrip(x: nat, n: nat)
    requires x < Pow256(n)
    ensures LeNat(LeBytes(x, n)) == x
    decreases n
  {
    if n > 0 {
      LeRoundTrip(x / 256, n - 1);
      assert LeBytes(x, n)[1..] == LeBytes(x / 256, n - 1);
    }
  }

  lemma {:induction false} LeBytesRoundTrip(b: Bytes)
    ensures LeNat(b) < Pow256(|b|) && LeBytes(LeNat(b), |b|) == b
  {
    if b != [] {
      var rest := LeNat(b[1..]);
      LeBytesRoundTrip(b[1..]);
      assert LeNat(b) % 256 == b[0] && LeNat(b) / 256 == rest;
      assert b == [b[0]] + b[1..];
    }
  }

  lemma {:induction false} LeZeros(n: nat)
    ensures LeNat(Zeros(n)) == 0
  {
    if n > 0 {
      LeZeros(n - 1);
      assert Zeros(n)[1..] == Zeros(n - 1);
    }
  }

  // ---- 32-bit signed integers ----

  type s32 = x: int | -0x8000_0000 <= x < 0x8000_0000

  function Put32(x: s32): (b: Bytes)
    ensures |b| == 4
  {
    LeBytes(if x < 0 then x + 0x1_0000_0000 else x, 4)
  }

  function Get32(b: Bytes): int
    requires |b| == 4
  {
    var u := LeNat(b);
    if u < 0x8000_0000 then u else u - 0x1_0000_0000
  }

  lemma RoundTrip32(x: s32)
    ensures Get32(Put32(x)) == x
  {
    assert Pow256(4) == 0x1_0000_0000;
    LeRoundTrip(if x < 0 then x + 0x1_0000_0000 else x, 4);
  }

  lemma BytesRoundTrip32(b: Bytes)
    requires |b| == 4
    ensures -0x8000_0000 <= Get32(b) < 0x8000_0000 && Put32(Get32(b)) == b
  {
    assert Pow256(4) == 0x1_0000_0000;
    LeBytesRoundTrip(b);
  }

  // ---- arrays of 32-bit integers ----

  /** ((int *)b)[i] */
  function GetInt(b: Bytes, i: nat): int
    requires 4 * i + 4 <= |b|
  {
    Get32(b[4 * i..4 * i + 4])
  }

  /** The bytes after ((int *)b)[i] = x. */
  function SetInt(b: Bytes, i: nat, x: s32): (b': Bytes)
    requires 4 * i + 4 <= |b|
    ensures |b'| == |b|
  {
    b[..4 * i] + Put32(x) + b[4 * i + 4..]
  }

  lemma GetSetInt(b: Bytes, i: nat, x: s32, j: nat)
    requires 4 * i + 4 <= |b| && 4 * j + 4 <= |b|
    ensures GetInt(SetInt(b, i, x), j) == if i == j then x else GetInt(b, j)
  {
    var b' := SetInt(b, i, x);
    hide Get32, Put32;
    if i == j {
      assert b'[4 * j..4 * j + 4] == Put32(x);
      RoundTrip32(x);
    } else {
      assert b'[4 * j..4 * j + 4] == b[4 * j..4 * j + 4];
    }
  }

  /** Writing back the number that was there restores the bytes. */
  lemma SetBack(b: Bytes, i: nat, x: s32)
    requires 4 * i + 4 <= |b|
    ensures -0x8000_0000 <= GetInt(b, i) < 0x8000_0000
    ensures SetInt(SetInt(b, i, x), i, GetInt(b, i)) == b
  {
    var w := b[4 * i..4 * i + 4];
    BytesRoundTrip32(w);
    hide Put32, Get32, LeBytes, LeNat;
    var b' := SetInt(b, i, x);
    assert b'[..4 * i] == b[..4 * i] && b'[4 * i + 4..] == b[4 * i + 4..];
    assert b == b[..4 * i] + w + b[4 * i + 4..];
  }

  lemma GetIntZeros(n: nat, i: nat)
    requires 4 * i + 4 <= n
    ensures GetInt(Zeros(n), i) == 0
  {
    assert Zeros(n)[4 * i..4 * i + 4] == Zeros(4);
    LeZeros(4);
  }

  // ---- C structures: 32-bit fields in order ----

  function Ints(xs: seq<s32>): (b: Bytes)
    ensures |b| == 4 * |xs|
  {
    if xs == [] then [] else Ints(xs[..|xs| - 1]) + Put32(xs[|xs| - 1])
  }

  lemma {:induction false} IntsSlice(xs: seq<s32>, rest: Bytes, i: nat)
    requires i < |xs|
    ensures (Ints(xs) + rest)[4 * i..4 * i + 4] == Put32(xs[i])
    decreases |xs|
  {
    hide Put32;
    var front, last := xs[..|xs| - 1], Put32(xs[|xs| - 1]);
    Regroup(Ints(front), last, rest);
    if i < |front| {
      IntsSlice(front, last + rest, i);
    } else {
      MiddleSlice(Ints(front), last, rest);
    }
  }

  lemma IntsAt(xs: seq<s32>, rest: Bytes, i: nat)
    requires i < |xs|
    ensures (Ints(xs) + rest)[4 * i..4 * i + 4] == Put32(xs[i])
    ensures GetInt(Ints(xs) + rest, i) == xs[i]
  {
    IntsSlice(xs, rest, i);
    RoundTrip32(xs[i]);
    hide Put32, Get32, Ints;
  }

  lemma Regroup(a: Bytes, m: Bytes, c: Bytes)
    ensures (a + m) + c == a + (m + c)
  {}

  lemma MiddleSlice(a: Bytes, m: Bytes, c: Bytes)
    ensures (a + (m + c))[|a|..|a| + |m|] == m
  {}
}
