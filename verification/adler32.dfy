/**
 The Adler-32 checksum of section 2.2 of RFC 1950, with the modulo deferred over
 blocks of 5552 bytes.
 */
module Adler32 {
  import opened Basics
  import opened Bits

  const BASE := 65521
  const BLOCK := 5552

  /** One plus the sum of the first `n` bytes. */
  function Sum1(data: seq<byte>, n: nat): nat
    requires n <= |data|
  {
    if n == 0 then 1 else (Sum1(data, n - 1) + data[n - 1]) % BASE
  }

  /** The sum of the first `n` values of `Sum1` after a byte. */
  function Sum2(data: seq<byte>, n: nat): nat
    requires n <= |data|
  {
    if n == 0 then 0 else (Sum2(data, n - 1) + Sum1(data, n)) % BASE
  }

  lemma ModStep(x: nat, y: nat, d: nat, e: nat)
    requires x % BASE == y && d % BASE == e % BASE
    ensures (x + d) % BASE == (y + e) % BASE
  {
    assert x == BASE * (x / BASE) + y;
    assert d == BASE * (d / BASE) + d % BASE;
    assert e == BASE * (e / BASE) + d % BASE;
    assert x + d == BASE * (x / BASE + d / BASE - e / BASE) + (y + e);
  }

  /** The largest values the sums can reach `i` bytes into a block. */
  predicate InBounds(s1: nat, s2: nat, i: nat) {
    s1 < BASE + 255 * i && 2 * s2 <= 2 * (BASE - 1) * (i + 1) + 255 * i * (i + 1)
  }

  lemma InBoundsStep(s1: nat, s2: nat, i: nat, b: byte)
    requires InBounds(s1, s2, i) && i < BLOCK
    ensures InBounds(s1 + b, s2 + s1 + b, i + 1)
  {
    assert 255 * (i + 1) * (i + 2) == 255 * i * (i + 1) + 255 * 2 * (i + 1);
  }

  /** No block overflows 32 bits. */
  lemma BlockFits(s1: nat, s2: nat, i: nat)
    requires InBounds(s1, s2, i) && i <= BLOCK
    ensures s1 < 0x1_0000_0000 && s2 < 0x1_0000_0000
  {
    MulMono(i + 1, i, BLOCK);
    assert 255 * i * (i + 1) == 255 * (i * (i + 1));
  }

  /** A block of 5552 bytes can hold the largest sums in 32 bits, and a longer one cannot. */
  lemma BlockIsLargest()
    ensures var most := (n: nat) => (BASE - 1) * (n + 1) + 255 * n * (n + 1) / 2;
            most(BLOCK) < 0x1_0000_0000 <= most(BLOCK + 1)
  {
  }

  /** Both sums are right modulo `BASE`, and small enough. */
  ghost predicate BlockSums(data: seq<byte>, n: nat, i: nat, s1: nat, s2: nat)
    requires n <= |data|
  {
    s1 % BASE == Sum1(data, n) && s2 % BASE == Sum2(data, n) && InBounds(s1, s2, i)
  }

  lemma AddByte(data: seq<byte>, n: nat, i: nat, s1: nat, s2: nat)
    requires n < |data| && i < BLOCK && BlockSums(data, n, i, s1, s2)
    ensures BlockSums(data, n + 1, i + 1, s1 + data[n], s2 + s1 + data[n])
    ensures s1 + data[n] < 0x1_0000_0000 && s2 + s1 + data[n] < 0x1_0000_0000
  {
    hide InBounds;
    InBoundsStep(s1, s2, i, data[n]);
    BlockFits(s1 + data[n], s2 + s1 + data[n], i + 1);
    ModStep(s1, Sum1(data, n), data[n], data[n]);
    ModStep(s2, Sum2(data, n), s1 + data[n], Sum1(data, n + 1));
  }

  /** Adds the `len` bytes from `j` on, reducing only at the end. */
  method AddBlock(data: seq<byte>, j: nat, len: nat, a: uint32, b: uint32) returns (s1: uint32, s2: uint32)
    requires j + len <= |data| && len <= BLOCK
    requires a == Sum1(data, j) < BASE && b == Sum2(data, j) < BASE
    ensures s1 == Sum1(data, j + len) < BASE && s2 == Sum2(data, j + len) < BASE
  {
    s1, s2 := a, b;
    StartBlock(data, j, a, b);
    hide BlockSums;
    for i := 0 to len
      invariant BlockSums(data, j + i, i, s1, s2)
    {
      AddByte(data, j + i, i, s1, s2);
      s1 := s1 + data[j + i];
      s2 := s2 + s1;
    }
    EndBlock(data, j + len, len, s1, s2);
    s1, s2 := s1 % BASE, s2 % BASE;
  }

  lemma StartBlock(data: seq<byte>, n: nat, s1: nat, s2: nat)
    requires n <= |data| && s1 == Sum1(data, n) < BASE && s2 == Sum2(data, n) < BASE
    ensures BlockSums(data, n, 0, s1, s2)
  {
    hide Sum1, Sum2;
  }

  lemma EndBlock(data: seq<byte>, n: nat, i: nat, s1: nat, s2: nat)
    requires n <= |data| && BlockSums(data, n, i, s1, s2)
    ensures s1 % BASE == Sum1(data, n) < BASE && s2 % BASE == Sum2(data, n) < BASE
  {
    hide Sum1, Sum2, InBounds;
  }

  /** The blocked sums are the per-byte sums; every intermediate value fits 32 bits. */
  method Adler(data: seq<byte>) returns (s1: uint32, s2: uint32)
    ensures s1 == Sum1(data, |data|) < BASE && s2 == Sum2(data, |data|) < BASE
  {
    s1, s2 := 1, 0;
    var blocklen: nat := |data| % BLOCK;
    var j: nat := 0;
    while j < |data|
      invariant j <= |data| && (j == |data| || j + blocklen <= |data|)
      invariant blocklen <= BLOCK && (|data| - j - blocklen) % BLOCK == 0
      invariant s1 == Sum1(data, j) < BASE && s2 == Sum2(data, j) < BASE
      decreases |data| - j, BLOCK - blocklen
    {
      s1, s2 := AddBlock(data, j, blocklen, s1, s2);
      j := j + blocklen;
      blocklen := BLOCK;
      BlockBound(|data| - j);
    }
  }

  lemma BlockBound(n: nat)
    requires n % BLOCK == 0
    ensures (n - BLOCK) % BLOCK == 0 && (n == 0 || n >= BLOCK)
  {
  }

  /** The checksum as the four bytes that close a zlib stream, most significant first. */
  function Trailer(data: seq<byte>): seq<byte> {
    var s1, s2 := Sum1(data, |data|), Sum2(data, |data|);
    [s2 / 256 % 256, s2 % 256, s1 / 256 % 256, s1 % 256]
  }

  // ----- the checksum with plain sums

  /** The sum of the first `n` bytes. */
  function Total(data: seq<byte>, n: nat): nat
    requires n <= |data|
  {
    if n == 0 then 0 else Total(data, n - 1) + data[n - 1]
  }

  /** The sum of `(n - i) * data[i]` for `i` below `m`. */
  function Weighted(data: seq<byte>, n: nat, m: nat): nat
    requires m <= |data| && m <= n
  {
    if m == 0 then 0 else Weighted(data, n, m - 1) + (n - (m - 1)) * data[m - 1]
  }

  lemma {:induction false} WeightedNext(data: seq<byte>, n: nat, m: nat)
    requires m <= |data| && m <= n
    ensures Weighted(data, n + 1, m) == Weighted(data, n, m) + Total(data, m)
  {
    if m > 0 {
      WeightedNext(data, n, m - 1);
      var k, b := n - (m - 1), data[m - 1];
      assert (k + 1) * b == k * b + b;
    }
  }

  lemma WeightedLast(data: seq<byte>, n: nat)
    requires 0 < n <= |data|
    ensures Weighted(data, n, n) == Weighted(data, n - 1, n - 1) + Total(data, n)
  {
    WeightedNext(data, n - 1, n - 1);
    assert Weighted(data, n, n) == Weighted(data, n, n - 1) + 1 * data[n - 1];
  }

  lemma SumSteps(data: seq<byte>, n: nat)
    requires 0 < n <= |data|
    ensures Sum1(data, n) == (Sum1(data, n - 1) + data[n - 1]) % BASE
    ensures Sum2(data, n) == (Sum2(data, n - 1) + Sum1(data, n)) % BASE
    ensures Total(data, n) == Total(data, n - 1) + data[n - 1]
  {
  }

  lemma PlainStep(s1: nat, s2: nat, r1: nat, r2: nat, t: nat, w: nat, d: nat)
    requires t % BASE == s1 && w % BASE == s2 && r1 == (s1 + d) % BASE && r2 == (s2 + r1) % BASE
    ensures (t + d) % BASE == r1 && (w + (t + d)) % BASE == r2
  {
    ModStep(t, s1, d, d);
    ModStep(w, s2, t + d, r1);
  }

  lemma {:induction false} SumsArePlain(data: seq<byte>, n: nat)
    requires n <= |data|
    ensures Sum1(data, n) == (1 + Total(data, n)) % BASE
    ensures Sum2(data, n) == (n + Weighted(data, n, n)) % BASE
  {
    if n > 0 {
      SumsArePlain(data, n - 1);
      WeightedLast(data, n);
      var t, w := 1 + Total(data, n - 1), n - 1 + Weighted(data, n - 1, n - 1);
      SumSteps(data, n);
      hide Sum1, Sum2, Total, Weighted;
      PlainStep(Sum1(data, n - 1), Sum2(data, n - 1), Sum1(data, n), Sum2(data, n), t, w, data[n - 1]);
    }
  }

  function BigEndian(b: seq<byte>): nat
    requires |b| == 4
  {
    var p: nat, q: nat, r: nat, s: nat := b[0], b[1], b[2], b[3];
    0x100_0000 * p + 0x1_0000 * q + 0x100 * r + s
  }

  /** The trailer is the number that section 2.2 of RFC 1950 describes, most significant byte first. */
  lemma TrailerIsChecksum(data: seq<byte>)
    ensures |Trailer(data)| == 4
    ensures var n := |data|;
            BigEndian(Trailer(data)) == (n + Weighted(data, n, n)) % 65521 * 65536 + (1 + Total(data, n)) % 65521
  {
    hide Sum1, Sum2, Total, Weighted;
    SumsArePlain(data, |data|);
    var s1, s2 := Sum1(data, |data|), Sum2(data, |data|);
    assert BASE == 65521 && s1 < 65536 && s2 < 65536;
    assert s1 == s1 / 256 % 256 * 256 + s1 % 256 && s2 == s2 / 256 % 256 * 256 + s2 % 256;
  }
}
