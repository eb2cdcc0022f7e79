/**
 A byte sequence as an endless stream of bits, least significant bit of each
 byte first, with zero bits after the end.
 */
module BitStream {
  import opened Bits

  function ByteAt(z: seq<byte>, i: nat): byte {
    if i < |z| then z[i] else 0
  }

  predicate StreamBit(z: seq<byte>, i: nat) {
    Bit(ByteAt(z, i / 8), i % 8)
  }

  /** The `n` bits from position `at`, first bit least significant. */
  function Peek(z: seq<byte>, at: nat, n: nat): nat
    decreases |z|, n
  {
    if n == 0 then 0 else B2N(StreamBit(z, at)) + 2 * Peek(z, at + 1, n - 1)
  }

  lemma {:induction false} PeekBound(z: seq<byte>, at: nat, n: nat)
    ensures Peek(z, at, n) < Pow2(n)
    decreases n
  {
    if n > 0 { PeekBound(z, at + 1, n - 1); }
  }

  lemma {:induction false} PeekLow(z: seq<byte>, at: nat, n: nat, m: nat)
    requires m <= n
    ensures Low(Peek(z, at, n), m) == Peek(z, at, m)
    decreases n
  {
    if m > 0 { PeekLow(z, at + 1, n - 1, m - 1); }
  }

  lemma {:induction false} PeekShr(z: seq<byte>, at: nat, n: nat, m: nat)
    requires m <= n
    ensures Shr(Peek(z, at, n), m) == Peek(z, at + m, n - m)
    decreases n
  {
    if m > 0 { PeekShr(z, at + 1, n - 1, m - 1); }
  }

  lemma {:induction false} PeekJoin(z: seq<byte>, at: nat, n: nat, m: nat)
    ensures Peek(z, at, n) + Shl(Peek(z, at + n, m), n) == Peek(z, at, n + m)
    decreases n
  {
    if n > 0 { PeekJoin(z, at + 1, n - 1, m); }
  }

  lemma {:induction false} PeekBit(z: seq<byte>, at: nat, n: nat, i: nat)
    requires i < n
    ensures Bit(Peek(z, at, n), i) == StreamBit(z, at + i)
    decreases n
  {
    if i > 0 { PeekBit(z, at + 1, n - 1, i - 1); }
  }

  lemma {:induction false} PeekInByte(z: seq<byte>, k: nat, j: nat, n: nat)
    requires j + n <= 8
    ensures Peek(z, 8 * k + j, n) == Low(Shr(ByteAt(z, k), j), n)
    decreases n
  {
    if n > 0 {
      PeekInByte(z, k, j + 1, n - 1);
      assert (8 * k + j) / 8 == k && (8 * k + j) % 8 == j;
      BitShr(ByteAt(z, k), j, 0);
      ShrHalf(ByteAt(z, k), j);
    }
  }

  lemma {:induction false} ShrHalf(x: nat, j: nat)
    ensures Shr(x, j) / 2 == Shr(x, j + 1)
    decreases j
  {
    if j > 0 { ShrHalf(x / 2, j - 1); }
  }

  lemma PeekByte(z: seq<byte>, k: nat, n: nat)
    requires n == 8
    ensures Peek(z, 8 * k, n) == ByteAt(z, k)
  {
    PeekInByte(z, k, 0, n);
    Pow2Values(n);
    LowIdentity(ByteAt(z, k), n);
  }

  lemma {:induction false} PeekRev(z: seq<byte>, at: nat, n: nat, m: nat, s: nat)
    requires s <= n && s <= m
    ensures Rev(Peek(z, at, n), s) == Rev(Peek(z, at, m), s)
    decreases s
  {
    if s > 0 {
      PeekBit(z, at, n, s - 1);
      PeekBit(z, at, m, s - 1);
      PeekRev(z, at, n, m, s - 1);
    }
  }

  // ----- whole bytes

  /** The bytes from `pos` on, with zeros after the end. */
  function Values(z: seq<byte>, pos: nat, n: nat): (r: seq<byte>)
    ensures |r| == n
  {
    if n == 0 then [] else Values(z, pos, n - 1) + [ByteAt(z, pos + n - 1)]
  }

  lemma {:induction false} ValuesSlice(z: seq<byte>, pos: nat, n: nat)
    requires pos + n <= |z|
    ensures Values(z, pos, n) == z[pos..pos + n]
  {
    if n > 0 { ValuesSlice(z, pos, n - 1); }
  }

  /** `bytes` stand in `z` at `pos`. */
  predicate StandsAt(z: seq<byte>, pos: nat, bytes: seq<byte>) {
    pos + |bytes| <= |z| && z[pos..pos + |bytes|] == bytes
  }

  lemma StandsSplit(z: seq<byte>, pos: nat, a: seq<byte>, b: seq<byte>)
    requires StandsAt(z, pos, a + b)
    ensures StandsAt(z, pos, a) && StandsAt(z, pos + |a|, b)
  {
    var s := z[pos..pos + |a + b|];
    assert s[..|a|] == a && s[|a|..] == b;
    assert z[pos..pos + |a|] == s[..|a|];
    assert z[pos + |a|..pos + |a| + |b|] == s[|a|..];
  }
}
