/**
 The compressor: hash-chain LZ77 with one step of lazy matching into a single
 block with the fixed codes. Whatever candidates the hash table offers, inflating
 the output gives back the input.
 */
module Deflater {
  import opened Basics
  import opened Bits
  import opened BitStream
  import opened BitWriting
  import opened DeflateTables
  import opened DeflateSpec
  import opened InflateSpec
  import Adler32

  const ZHASH := 16384
  const MAX_MATCH := 258

  /** `x ^ y` */
  function Xor(x: nat, y: nat): nat
    decreases x + y
  {
    if x == 0 && y == 0 then 0 else (x + y) % 2 + 2 * Xor(x / 2, y / 2)
  }

  /** The low `n` bits and those above are taken one by one. */
  lemma {:induction false} XorSplit(a: nat, b: nat, c: nat, d: nat, n: nat)
    requires a < Pow2(n) && c < Pow2(n)
    ensures Xor(a + Shl(b, n), c + Shl(d, n)) == Xor(a, c) + Shl(Xor(b, d), n)
    decreases n
  {
    hide Xor;
    if n == 0 {
      XorNone(0);
    } else {
      var p, q, u, v := a % 2, c % 2, a / 2, c / 2;
      var s, t, r := Shl(b, n - 1), Shl(d, n - 1), Shl(Xor(b, d), n - 1);
      assert u < Pow2(n - 1) && v < Pow2(n - 1);
      assert Shl(b, n) == 2 * s && Shl(d, n) == 2 * t && Shl(Xor(b, d), n) == 2 * r;
      hide Pow2, Shl;
      assert a == p + 2 * u && c == q + 2 * v;
      assert a + 2 * s == p + 2 * (u + s) && c + 2 * t == q + 2 * (v + t);
      XorSplit(u, b, v, d, n - 1);
      XorBit(p, q, u, v);
      XorBit(p, q, u + s, v + t);
    }
  }

  lemma XorBit(p: nat, q: nat, u: nat, v: nat)
    requires p < 2 && q < 2
    ensures Xor(p + 2 * u, q + 2 * v) == (p + q) % 2 + 2 * Xor(u, v)
  {
    hide Xor;
    var x, y := p + 2 * u, q + 2 * v;
    assert x / 2 == u && y / 2 == v && (x + y) % 2 == (p + q) % 2;
    XorStep(x, y);
  }

  lemma XorStep(x: nat, y: nat)
    ensures Xor(x, y) == (x + y) % 2 + 2 * Xor(x / 2, y / 2)
  {
  }

  lemma {:induction false} BitXor(x: nat, y: nat, i: nat)
    ensures Bit(Xor(x, y), i) <==> Bit(x, i) != Bit(y, i)
    decreases i
  {
    XorStep(x, y);
    hide Xor;
    XorParity(x, y, Xor(x / 2, y / 2));
    if i > 0 { BitXor(x / 2, y / 2, i - 1); }
  }

  lemma XorParity(x: nat, y: nat, r: nat)
    ensures ((x + y) % 2 + 2 * r) / 2 == r && ((x + y) % 2 + 2 * r) % 2 == (x + y) % 2
    ensures (x + y) % 2 == 1 <==> (x % 2 == 1) != (y % 2 == 1)
  {
  }

  lemma {:induction false} XorNone(x: nat)
    ensures Xor(x, 0) == x && Xor(0, x) == x
  {
    if x > 0 { XorNone(x / 2); }
  }

  /** What a product or a sum leaves in 32 bits. */
  function Wrap(x: nat): uint32 {
    x % 0x1_0000_0000
  }

  /** `h ^= h << s` and then `h += h >> t`, for the powers of two `m` of `s` and `d` of `t`. */
  function Mixed(h: nat, m: nat, d: nat): uint32
    requires d > 0
  {
    var g := Xor(h, Wrap(h * m));
    Wrap(g + g / d)
  }

  /** The mixing of the hash; the low 14 bits are the slot. */
  function ZMix(h: nat): (slot: nat)
    ensures slot < ZHASH
  {
    Mixed(Mixed(Mixed(h, 8, 32), 16, 0x2_0000), 0x200_0000, 64) % 0x4000
  }

  /** The hash of three bytes, as a slot of the table. */
  function ZHash(b0: byte, b1: byte, b2: byte): (h: nat)
    ensures h < ZHASH
  {
    ZMix(Packed(b0, b1, b2))
  }

  /** Three bytes, the first one lowest. */
  function Packed(b0: byte, b1: byte, b2: byte): (r: nat)
    ensures r < 0x100_0000 && r % 0x100 == b0 && r / 0x100 % 0x100 == b1 && r / 0x1_0000 == b2
  {
    b0 + b1 * 0x100 + b2 * 0x1_0000
  }

  /** The slot of the three bytes at `i`. */
  function HashAt(data: seq<byte>, i: nat): (h: nat)
    requires i + 2 < |data|
    ensures h < ZHASH
  {
    ZHash(data[i], data[i + 1], data[i + 2])
  }

  /** Three bytes have one slot, wherever they stand. */
  lemma SlotOfThree(front: seq<byte>, a: byte, b: byte, c: byte, behind: seq<byte>)
    ensures HashAt(front + [a, b, c] + behind, |front|) == ZMix(Packed(a, b, c))
  {
    hide ZMix, Packed;
    var data := front + [a, b, c] + behind;
    assert data[|front|] == a && data[|front| + 1] == b && data[|front| + 2] == c;
  }

  /** The slot of the bytes 0, 64, 0, worked out by hand: every shift has a part in it. */
  lemma OneSlot()
    ensures ZMix(0x4000) == 4059
  {
    FirstXor();
    SecondXor();
    ThirdXor();
    hide Xor;
    MixedIs(0x4000, 8, 32, 0x2_0000, 0x2_4000, 0x2_5200);
    MixedIs(0x2_5200, 16, 0x2_0000, 0x25_2000, 0x27_7200, 0x27_7213);
    MixedIs(0x27_7213, 0x200_0000, 64, 0x2600_0000, 0x2627_7213, 0x26C0_0FDB);
    hide Mixed;
  }

  lemma MixedIs(h: nat, m: nat, d: nat, shifted: nat, g: nat, r: nat)
    requires d > 0 && Wrap(h * m) == shifted && Xor(h, shifted) == g && Wrap(g + g / d) == r
    ensures Mixed(h, m, d) == r
  {
  }

  lemma FirstXor()
    ensures Xor(0x4000, 0x2_0000) == 0x2_4000
  {
    SmallXors();
    PowersOfTwo();
    hide Xor, Pow2;
    XorShifted(1, 8, 14);
  }

  lemma SecondXor()
    ensures Xor(0x2_5200, 0x25_2000) == 0x27_7200
  {
    SmallXors();
    PowersOfTwo();
    hide Xor, Pow2;
    XorShifted(297, 4752, 9);
  }

  lemma ThirdXor()
    ensures Xor(0x27_7213, 0x2600_0000) == 0x2627_7213
  {
    PowersOfTwo();
    XorNone(0x27_7213);
    XorNone(19);
    hide Xor, Pow2, Shl;
    ShlIsMul(0, 25);
    ShlIsMul(19, 25);
    XorSplit(0x27_7213, 0, 0, 19, 25);
  }

  lemma XorShifted(b: nat, d: nat, n: nat)
    ensures Xor(b * Pow2(n), d * Pow2(n)) == Xor(b, d) * Pow2(n)
  {
    XorSplit(0, b, 0, d, n);
    ShlIsMul(b, n);
    ShlIsMul(d, n);
    ShlIsMul(Xor(b, d), n);
  }

  lemma PowersOfTwo()
    ensures Pow2(9) == 0x200 && Pow2(14) == 0x4000 && Pow2(25) == 0x200_0000
  {
  }

  lemma SmallXors()
    ensures Xor(1, 8) == 9 && Xor(297, 4752) == 5049 && Xor(0, 0) == 0
  {
    XorStep(1, 8);
    XorNone(4);
  }

  // ----- matches

  /** `n` bytes at `a` are those at `b`. */
  predicate Agree(data: seq<byte>, a: nat, b: nat, n: nat)
    requires a <= b && b + n <= |data|
  {
    forall k :: b <= k < b + n ==> data[k] == data[k - (b - a)]
  }

  /** `n` is how far the bytes at `a` and at `b` agree, at most to the end of the data and to the longest match. */
  predicate IsMatch(data: seq<byte>, a: nat, b: nat, n: nat) {
    && a < b && b + n <= |data| && n <= MAX_MATCH
    && Agree(data, a, b, n)
    && (b + n == |data| || n == MAX_MATCH || data[b + n] != data[a + n])
  }

  lemma MatchUnique(data: seq<byte>, a: nat, b: nat, m: nat, n: nat)
    requires IsMatch(data, a, b, m) && IsMatch(data, a, b, n)
    ensures m == n
  {
    if m < n {
      assert false;
    } else if n < m {
      assert false;
    }
  }

  method CountM(data: seq<byte>, a: nat, b: nat, limit: nat) returns (n: nat)
    requires a < b && b + limit == |data|
    ensures IsMatch(data, a, b, n)
    ensures n <= 258 && b + n <= |data| && data[a..a + n] == data[b..b + n]
    ensures n < 258 && b + n < |data| ==> data[a + n] != data[b + n]
  {
    n := 0;
    while n < limit && n < MAX_MATCH
      invariant n <= limit && n <= MAX_MATCH && Agree(data, a, b, n)
    {
      if data[a + n] != data[b + n] { break; }
      n := n + 1;
    }
  }

  /** The candidate in place `j` is near enough and matches exactly `n` bytes. */
  ghost predicate Offers(data: seq<byte>, i: nat, hlist: seq<nat>, j: nat, n: nat)
    requires j < |hlist|
  {
    hlist[j] > i - 32768 && IsMatch(data, hlist[j], i, n)
  }

  /**
   A longest match of three bytes or more among the near candidates, the last of those as
   long; none if there is none.
   */
  ghost predicate IsBest(data: seq<byte>, i: nat, hlist: seq<nat>, best: nat, at: int) {
    && -1 <= at < |hlist|
    && (at == -1 ==> best == 3)
    && (at >= 0 ==> best >= 3 && Offers(data, i, hlist, at, best))
    && (forall j: nat, n: nat :: j < |hlist| && Offers(data, i, hlist, j, n) ==> n < best || (j <= at && n <= best))
  }

  method FindBest(data: seq<byte>, i: nat, hlist: seq<nat>) returns (best: nat, bestloc: int)
    requires i < |data| && forall j :: 0 <= j < |hlist| ==> hlist[j] < i
    ensures exists at: int :: -1 <= at < |hlist| && IsBest(data, i, hlist, best, at)
                              && bestloc == if at < 0 then -1 else hlist[at]
    ensures bestloc >= 0 ==> bestloc < i <= bestloc + 32767 && best == Common(data, bestloc, i, 258) >= 3
    ensures bestloc < 0 ==> best == 3
    ensures forall j :: 0 <= j < |hlist| && i - hlist[j] <= 32767 ==>
              Common(data, hlist[j], i, 258) < (if bestloc < 0 then 3 else best + 1)
  {
    best, bestloc := 3, -1;
    ghost var at := -1;
    for j := 0 to |hlist|
      invariant IsBest(data, i, hlist[..j], best, at)
      invariant bestloc == if at < 0 then -1 else hlist[at]
    {
      var near := hlist[j] > i - 32768;
      ghost var before, was := best, at;
      var d := 0;
      if near {
        d := CountM(data, hlist[j], i, |data| - i);
        if d >= best {
          best, bestloc, at := d, hlist[j], j;
        }
      }
      BestStep(data, i, hlist, j, before, was, near, d, best, at);
    }
    assert hlist[..|hlist|] == hlist;
    if at >= 0 { MatchIsCommon(data, hlist[at], i, best); }
    forall j | 0 <= j < |hlist| && i - hlist[j] <= 32767
      ensures Common(data, hlist[j], i, 258) < if bestloc < 0 then 3 else best + 1
    {
      CommonIsMatch(data, hlist[j], i);
      assert Offers(data, i, hlist, j, Common(data, hlist[j], i, 258));
    }
  }

  /** How many bytes at `a` and `b` agree one after the other, at most `max`. */
  function Common(data: seq<byte>, a: nat, b: nat, max: nat): nat
    requires a <= b
    decreases max
  {
    if max == 0 || b >= |data| || data[a] != data[b] then 0 else 1 + Common(data, a + 1, b + 1, max - 1)
  }

  lemma {:induction false} CommonAgrees(data: seq<byte>, a: nat, b: nat, max: nat)
    requires a <= b <= |data|
    ensures var n := Common(data, a, b, max);
            && n <= max && b + n <= |data| && Agree(data, a, b, n)
            && (n == max || b + n == |data| || data[a + n] != data[b + n])
    decreases max
  {
    if max > 0 && b < |data| && data[a] == data[b] {
      CommonAgrees(data, a + 1, b + 1, max - 1);
    }
  }

  lemma CommonIsMatch(data: seq<byte>, a: nat, b: nat)
    requires a < b <= |data|
    ensures IsMatch(data, a, b, Common(data, a, b, 258))
  {
    CommonAgrees(data, a, b, 258);
  }

  lemma MatchIsCommon(data: seq<byte>, a: nat, b: nat, n: nat)
    requires a < b <= |data| && IsMatch(data, a, b, n)
    ensures n == Common(data, a, b, 258)
  {
    CommonIsMatch(data, a, b);
    MatchUnique(data, a, b, n, Common(data, a, b, 258));
  }

  lemma BestStep(data: seq<byte>, i: nat, hlist: seq<nat>, j: nat, before: nat, was: int, near: bool, d: nat,
                 best: nat, at: int)
    requires j < |hlist| && IsBest(data, i, hlist[..j], before, was)
    requires near == (hlist[j] > i - 32768) && (near ==> IsMatch(data, hlist[j], i, d))
    requires if near && d >= before then best == d && at == j else best == before && at == was
    ensures IsBest(data, i, hlist[..j + 1], best, at)
  {
    var l, l' := hlist[..j], hlist[..j + 1];
    forall k: nat, n: nat | k < j + 1 && Offers(data, i, l', k, n) ensures n < best || (k <= at && n <= best) {
      if k < j {
        assert Offers(data, i, l, k, n);
      } else {
        MatchUnique(data, hlist[j], i, d, n);
      }
    }
    if was >= 0 { assert Offers(data, i, l, was, before); }
    if at >= 0 { assert Offers(data, i, l', at, best); }
  }

  /** Lazy matching: some near candidate for the byte at `next` matches more than `best` bytes. */
  ghost predicate Better(data: seq<byte>, next: nat, hlist: seq<nat>, best: nat) {
    exists j: nat, e: nat :: j < |hlist| && Offers(data, next, hlist, j, e) && e > best
  }

  lemma BetterIsCommon(data: seq<byte>, next: nat, hlist: seq<nat>, best: nat)
    requires next < |data| && forall j :: 0 <= j < |hlist| ==> hlist[j] < next
    ensures Better(data, next, hlist, best) <==>
            exists j :: 0 <= j < |hlist| && next - hlist[j] <= 32767 && Common(data, hlist[j], next, 258) > best
  {
    hide IsMatch;
    if Better(data, next, hlist, best) {
      var j: nat, e: nat :| j < |hlist| && Offers(data, next, hlist, j, e) && e > best;
      MatchIsCommon(data, hlist[j], next, e);
    }
    forall j | 0 <= j < |hlist| && next - hlist[j] <= 32767 && Common(data, hlist[j], next, 258) > best
      ensures Better(data, next, hlist, best)
    {
      CommonIsMatch(data, hlist[j], next);
      assert Offers(data, next, hlist, j, Common(data, hlist[j], next, 258));
    }
  }

  method NextIsBetter(data: seq<byte>, next: nat, hlist: seq<nat>, best: nat) returns (better: bool)
    requires next < |data| && forall j :: 0 <= j < |hlist| ==> hlist[j] < next
    ensures better <==> Better(data, next, hlist, best)
    ensures better <==>
            exists j :: 0 <= j < |hlist| && next - hlist[j] <= 32767 && Common(data, hlist[j], next, 258) > best
  {
    better := false;
    for j := 0 to |hlist|
      invariant forall k: nat, e: nat :: k < j && Offers(data, next, hlist, k, e) ==> e <= best
    {
      if hlist[j] > next - 32768 {
        var e := CountM(data, hlist[j], next, |data| - next);
        if e > best {
          assert Offers(data, next, hlist, j, e);
          better := true;
          break;
        }
        forall n: nat | Offers(data, next, hlist, j, n) ensures n <= best {
          MatchUnique(data, hlist[j], next, e, n);
        }
      }
    }
    BetterIsCommon(data, next, hlist, best);
  }

  // ----- the hash table

  /** Every list holds positions before `i` that hash to it, at most `2 * quality` of them. */
  ghost predicate TableValid(data: seq<byte>, i: nat, table: seq<seq<nat>>, quality: nat) {
    && |table| == ZHASH
    && forall h :: 0 <= h < ZHASH ==> ListValid(data, i, h, table[h], quality)
  }

  ghost predicate ListValid(data: seq<byte>, i: nat, h: nat, list: seq<nat>, quality: nat) {
    && |list| <= 2 * quality
    && forall j :: 0 <= j < |list| ==> list[j] < i && list[j] + 2 < |data| && HashAt(data, list[j]) == h
  }

  /** The list of `h` with the new position, the older half dropped when it is full. */
  function Pushed(list: seq<nat>, i: nat, quality: nat): seq<nat> {
    (if |list| == 2 * quality then list[quality..] else list) + [i]
  }

  method Push(data: seq<byte>, i: nat, hash_table: array<seq<nat>>, quality: nat)
    requires i + 2 < |data| && quality >= 1 && TableValid(data, i, hash_table[..], quality)
    modifies hash_table
    ensures hash_table[..] ==
            old(hash_table[..])[HashAt(data, i) := Pushed(old(hash_table[..])[HashAt(data, i)], i, quality)]
    ensures var list := old(hash_table[..])[HashAt(data, i)];
            hash_table[..][HashAt(data, i)] == (if |list| == 2 * quality then list[quality..] else list) + [i]
    ensures TableValid(data, i + 1, hash_table[..], quality)
  {
    hide HashAt;
    var h := HashAt(data, i);
    assert ListValid(data, i, h, hash_table[..][h], quality);
    if |hash_table[h]| == 2 * quality {
      hash_table[h] := hash_table[h][quality..];
    }
    hash_table[h] := hash_table[h] + [i];
    forall g | 0 <= g < ZHASH ensures ListValid(data, i + 1, g, hash_table[..][g], quality) {
      assert ListValid(data, i, g, old(hash_table[..])[g], quality);
    }
  }

  // ----- output

  /** `code` with its low `codebits` bits in reverse order. */
  method BitRev(code: nat, codebits: nat) returns (res: nat)
    ensures res == Rev(code, codebits)
  {
    res := 0;
    var rest := code;
    for i := 0 to codebits
      invariant res == Rev(code, i) && rest == Shr(code, i)
    {
      ShrHalf(code, i);
      BitShr(code, i, 0);
      res := 2 * res + rest % 2;
      rest := rest / 2;
    }
  }

  method AddCode(w: BitWriter, c: nat, n: nat)
    requires w.Valid() && n <= 16
    modifies w
    ensures w.Valid() && w.Written() == old(w.Written()) + CodeBits(c, n)
  {
    var r := BitRev(c, n);
    RevBound(c, n);
    w.Add(r, n);
  }

  /** The code of symbol `n` of the literal and length alphabet. */
  method AddSymbol(w: BitWriter, n: nat)
    requires w.Valid() && n < 288
    modifies w
    ensures w.Valid() && w.Written() == old(w.Written()) + SymbolBits(n)
  {
    hide ToBits, CodeBits, Rev, BytesBits;
    if n <= 143 {
      AddCode(w, 0x30 + n, 8);
    } else if n <= 255 {
      AddCode(w, 0x190 + n - 144, 9);
    } else if n <= 279 {
      AddCode(w, n - 256, 7);
    } else {
      AddCode(w, 0xc0 + n - 280, 8);
    }
  }

  method FindLength(len: nat) returns (j: nat)
    requires 3 <= len <= 258
    ensures j == LengthIndex(len, 0)
  {
    j := 0;
    while len > Lengthc(j + 1) - 1
      invariant j < 29 && Lengthc(j) <= len && LengthIndex(len, j) == LengthIndex(len, 0)
      decreases 29 - j
    {
      j := j + 1;
    }
  }

  method FindDist(dist: nat) returns (j: nat)
    requires 1 <= dist <= 32767
    ensures j == DistIndex(dist, 0)
  {
    j := 0;
    while dist > Distc(j + 1) - 1
      invariant j < 30 && Distc(j) <= dist && DistIndex(dist, j) == DistIndex(dist, 0)
      decreases 30 - j
    {
      j := j + 1;
    }
  }

  /** The extra bits, if there are any. */
  method AddExtra(w: BitWriter, v: nat, n: nat)
    requires w.Valid() && n <= 16 && v < Pow2(n)
    modifies w
    ensures w.Valid() && w.Written() == old(w.Written()) + ToBits(v, n)
  {
    if n != 0 {
      w.Add(v, n);
    }
  }

  method AddLength(w: BitWriter, len: nat)
    requires w.Valid() && 3 <= len <= 258
    modifies w
    ensures w.Valid() && w.Written() == old(w.Written()) + LengthBits(len)
  {
    hide SymbolBits, ToBits, BytesBits, LengthIndex, Lengtheb, LengthBase, LengthExtra, Pow2;
    var j := FindLength(len);
    LengthInterval(j);
    AddSymbol(w, j + 257);
    AddExtra(w, len - Lengthc(j), Lengtheb(j));
  }

  method AddDist(w: BitWriter, dist: nat)
    requires w.Valid() && 1 <= dist <= 32767
    modifies w
    ensures w.Valid() && w.Written() == old(w.Written()) + DistBits(dist)
  {
    hide CodeBits, ToBits, BytesBits, DistIndex, Disteb, DistBase, DistExtra, Pow2;
    var j := FindDist(dist);
    DistInterval(j);
    AddCode(w, j, 5);
    AddExtra(w, dist - Distc(j), Disteb(j));
  }

  method AddToken(w: BitWriter, t: Token, ghost n: nat)
    requires w.Valid() && Encodable(t, n)
    modifies w
    ensures w.Valid() && w.Written() == old(w.Written()) + TokenBits(t, n)
  {
    hide LengthBits, DistBits, SymbolBits;
    if t.Literal? {
      AddSymbol(w, t.b);
    } else {
      AddLength(w, t.len);
      AddDist(w, t.dist);
    }
  }

  // ----- the compressor

  function HeaderBits(): seq<bool> {
    ToBits(0x78, 8) + ToBits(0x5e, 8) + ToBits(1, 1) + ToBits(1, 2)
  }

  /** The tokens written so far stand for the first `i` bytes. */
  ghost predicate Emitted(data: seq<byte>, i: nat, tokens: seq<Token>, bits: seq<bool>) {
    && i <= |data| && |tokens| <= i
    && WellFormed(tokens, []) && Expand(tokens, []) == data[..i]
    && bits == HeaderBits() + TokensBits(tokens, [])
  }

  /** `t` stands for the `n` bytes at `i`. */
  ghost predicate StandsFor(data: seq<byte>, i: nat, t: Token, n: nat) {
    i + n <= |data| && n > 0 && Encodable(t, i) && Apply(t, data[..i]) == data[..i + n]
  }

  lemma LiteralStandsFor(data: seq<byte>, i: nat)
    requires i < |data|
    ensures StandsFor(data, i, Literal(data[i]), 1)
  {
  }

  lemma MatchStandsFor(data: seq<byte>, i: nat, loc: nat, n: nat)
    requires i - 32768 < loc && IsMatch(data, loc, i, n) && n >= 3
    ensures StandsFor(data, i, Match(n, i - loc), n)
  {
    CopyReproduces(data, i, n, i - loc);
  }

  lemma OfferStandsFor(data: seq<byte>, i: nat, hlist: seq<nat>, best: nat, at: nat)
    requires at < |hlist| && IsBest(data, i, hlist, best, at)
    ensures hlist[at] < i && StandsFor(data, i, Match(best, i - hlist[at]), best)
  {
    MatchStandsFor(data, i, hlist[at], best);
  }

  method Emit(data: seq<byte>, i: nat, w: BitWriter, t: Token, n: nat, ghost tokens: seq<Token>)
    returns (ghost more: seq<Token>)
    requires w.Valid() && Emitted(data, i, tokens, w.Written()) && StandsFor(data, i, t, n)
    modifies w
    ensures w.Valid() && Emitted(data, i + n, more, w.Written()) && more == tokens + [t]
  {
    hide TokenBits, Expand, Copy, TokensBits, WellFormed, HeaderBits, BytesBits, ToBits, Encodable;
    Snoc(tokens, t, []);
    AddToken(w, t, i);
    more := tokens + [t];
    assert w.Written() == HeaderBits() + (TokensBits(tokens, []) + TokenBits(t, i));
  }

  /**
   A best match among the candidates `hlist`, unless there is none or the next byte, with
   `next`, has a better one.
   */
  ghost predicate Chosen(data: seq<byte>, i: nat, hlist: seq<nat>, next: seq<nat>, t: Token)
    requires i < |data|
  {
    exists best: nat, at: int :: IsBest(data, i, hlist, best, at) &&
      if at >= 0 && !Better(data, i + 1, next, best) then t.Match? && t.len == best && t.dist == i - hlist[at]
      else t == Literal(data[i])
  }

  /** The greatest number of bytes that a candidate at most 32767 bytes back has in common with those at `i`. */
  function LongestNear(data: seq<byte>, i: nat, list: seq<nat>): nat {
    if list == [] then 0
    else
      var rest, last := LongestNear(data, i, list[..|list| - 1]), list[|list| - 1];
      var n := if last <= i <= last + 32767 then Common(data, last, i, 258) else 0;
      if n >= rest then n else rest
  }

  /** `at` is the last of the candidates with `n` bytes in common. */
  predicate LastNear(data: seq<byte>, i: nat, list: seq<nat>, at: int, n: nat) {
    exists j ::
      && 0 <= j < |list| && list[j] == at && at <= i && Common(data, list[j], i, 258) == n
      && forall k :: j < k < |list| && list[k] <= i <= list[k] + 32767 ==> Common(data, list[k], i, 258) < n
  }

  lemma {:induction false} LongestIs(data: seq<byte>, i: nat, list: seq<nat>)
    requires forall j :: 0 <= j < |list| ==> list[j] <= i
    ensures forall j :: 0 <= j < |list| && i - list[j] <= 32767 ==>
              Common(data, list[j], i, 258) <= LongestNear(data, i, list)
    ensures LongestNear(data, i, list) > 0 ==>
              exists j :: 0 <= j < |list| && i - list[j] <= 32767
                          && Common(data, list[j], i, 258) == LongestNear(data, i, list)
  {
    hide Common;
    if list != [] {
      var front := list[..|list| - 1];
      LongestIs(data, i, front);
      forall j | 0 <= j < |list| && i - list[j] <= 32767
        ensures Common(data, list[j], i, 258) <= LongestNear(data, i, list)
      {
        if j < |front| { assert front[j] == list[j]; }
      }
      if LongestNear(data, i, front) > 0 {
        var j :| 0 <= j < |front| && i - front[j] <= 32767
                 && Common(data, front[j], i, 258) == LongestNear(data, i, front);
        assert list[j] == front[j];
      }
    }
  }

  lemma ChosenIsLongest(data: seq<byte>, i: nat, list: seq<nat>, best: nat, at: int)
    requires i < |data| && (forall j :: 0 <= j < |list| ==> list[j] < i) && IsBest(data, i, list, best, at)
    ensures at >= 0 <==> LongestNear(data, i, list) >= 3
    ensures at >= 0 ==> best == LongestNear(data, i, list) && i - list[at] <= 32767
                        && LastNear(data, i, list, list[at], best)
  {
    hide IsMatch, LongestNear;
    LongestIs(data, i, list);
    forall j | 0 <= j < |list| && i - list[j] <= 32767
      ensures var n := Common(data, list[j], i, 258); n < best || (j <= at && n <= best)
    {
      CommonIsMatch(data, list[j], i);
      assert Offers(data, i, list, j, Common(data, list[j], i, 258));
    }
    if at >= 0 {
      MatchIsCommon(data, list[at], i, best);
      assert Common(data, list[at], i, 258) == best;
    }
  }

  lemma BetterIsLongest(data: seq<byte>, next: nat, list: seq<nat>, best: nat)
    requires next < |data| && forall j :: 0 <= j < |list| ==> list[j] < next
    ensures Better(data, next, list, best) <==> LongestNear(data, next, list) > best
  {
    hide LongestNear, Better;
    BetterIsCommon(data, next, list, best);
    LongestIs(data, next, list);
  }

  /** A match of the longest near candidate, the last such, unless it is shorter than 3 or than the next byte's. */
  predicate LongestChosen(data: seq<byte>, i: nat, list: seq<nat>, next: seq<nat>, t: Token)
    requires i < |data|
  {
    var len := LongestNear(data, i, list);
    if len >= 3 && LongestNear(data, i + 1, next) <= len
    then t.Match? && t.len == len && t.dist <= 32767 && LastNear(data, i, list, i - t.dist, len)
    else t == Literal(data[i])
  }

  lemma TokenIsLongest(data: seq<byte>, i: nat, list: seq<nat>, next: seq<nat>, t: Token)
    requires i + 1 < |data| && (forall j :: 0 <= j < |list| ==> list[j] < i)
    requires (forall j :: 0 <= j < |next| ==> next[j] < i + 1) && Chosen(data, i, list, next, t)
    ensures LongestChosen(data, i, list, next, t)
  {
    var best: nat, at: int :| IsBest(data, i, list, best, at) &&
      if at >= 0 && !Better(data, i + 1, next, best) then t.Match? && t.len == best && t.dist == i - list[at]
      else t == Literal(data[i]);
    assert -1 <= at < |list|;
    hide IsBest, Better, LongestNear, LastNear, Common;
    ChosenIsLongest(data, i, list, best, at);
    BetterIsLongest(data, i + 1, next, best);
  }

  /** Whether the byte at `i` starts a match, and its token; the byte becomes a candidate itself. */
  method ChooseToken(data: seq<byte>, i: nat, hash_table: array<seq<nat>>, quality: nat) returns (t: Token, n: nat)
    requires i + 3 < |data| && quality >= 1 && TableValid(data, i, hash_table[..], quality)
    modifies hash_table
    ensures TableValid(data, i + 1, hash_table[..], quality)
    ensures hash_table[..] ==
            old(hash_table[..])[HashAt(data, i) := Pushed(old(hash_table[..])[HashAt(data, i)], i, quality)]
    ensures Chosen(data, i, old(hash_table[..])[HashAt(data, i)], hash_table[..][HashAt(data, i + 1)], t)
    ensures LongestChosen(data, i, old(hash_table[..])[HashAt(data, i)], hash_table[..][HashAt(data, i + 1)], t)
    ensures StandsFor(data, i, t, n) && n == TokenLength(t)
  {
    hide HashAt, Offers, IsMatch, Pushed, StandsFor, IsBest, Better;
    var h := HashAt(data, i);
    var hlist := hash_table[h];
    assert ListValid(data, i, h, hash_table[..][h], quality);
    var best, bestloc := FindBest(data, i, hlist);
    ghost var at: int :| -1 <= at < |hlist| && IsBest(data, i, hlist, best, at)
                         && bestloc == if at < 0 then -1 else hlist[at];
    Push(data, i, hash_table, quality);
    if bestloc >= 0 {
      h := HashAt(data, i + 1);
      assert ListValid(data, i + 1, h, hash_table[..][h], quality);
      var better := NextIsBetter(data, i + 1, hash_table[h], best);
      if better {
        bestloc := -1;
      }
    }
    if bestloc >= 0 {
      OfferStandsFor(data, i, hlist, best, at);
      t, n := Match(best, i - bestloc), best;
    } else {
      LiteralStandsFor(data, i);
      t, n := Literal(data[i]), 1;
    }
    assert Chosen(data, i, hlist, hash_table[..][HashAt(data, i + 1)], t);
    hide Chosen, LongestChosen;
    ListBefore(data, i + 1, hash_table[..], HashAt(data, i + 1), quality);
    TokenIsLongest(data, i, hlist, hash_table[..][HashAt(data, i + 1)], t);
  }

  lemma ListBefore(data: seq<byte>, i: nat, table: seq<seq<nat>>, h: nat, quality: nat)
    requires TableValid(data, i, table, quality) && h < ZHASH
    ensures |table| == ZHASH && forall j :: 0 <= j < |table[h]| ==> table[h][j] < i
  {
    assert ListValid(data, i, h, table[h], quality);
  }

  // ----- which tokens these are

  type Table = seq<seq<nat>>

  function TokenLength(t: Token): nat {
    if t.Literal? then 1 else t.len
  }

  /** How many bytes the tokens stand for. */
  function Covered(tokens: seq<Token>): nat {
    if tokens == [] then 0 else Covered(tokens[..|tokens| - 1]) + TokenLength(tokens[|tokens| - 1])
  }

  /** The byte at `i` becomes a candidate, and its token is chosen among those before it. */
  ghost predicate Searched(data: seq<byte>, quality: nat, i: nat, before: Table, after: Table, t: Token) {
    && i + 3 < |data| && |before| == |after| == ZHASH
    && after == before[HashAt(data, i) := Pushed(before[HashAt(data, i)], i, quality)]
    && Chosen(data, i, before[HashAt(data, i)], after[HashAt(data, i + 1)], t)
  }

  /** Token `m` is searched for in the table as the tokens before it left it; the last bytes are literals. */
  ghost predicate TokenOk(data: seq<byte>, quality: nat, tokens: seq<Token>, tables: seq<Table>, m: nat)
    requires m < |tokens|
  {
    if m + 1 < |tables| then Searched(data, quality, Covered(tokens[..m]), tables[m], tables[m + 1], tokens[m])
    else tokens[m].Literal? && Covered(tokens[..m]) + 3 >= |data|
  }

  /** The tokens that lazy matching finds, with the tables on the way. */
  ghost predicate Lazily(data: seq<byte>, quality: nat, tokens: seq<Token>, tables: seq<Table>) {
    && 1 <= |tables| <= |tokens| + 1 && tables[0] == seq(ZHASH, _ => [])
    && forall m :: 0 <= m < |tokens| ==> TokenOk(data, quality, tokens, tables, m)
  }

  lemma CoveredSnoc(tokens: seq<Token>, t: Token)
    ensures Covered(tokens + [t]) == Covered(tokens) + TokenLength(t)
  {
    assert (tokens + [t])[..|tokens|] == tokens;
  }

  lemma LazilyNone(data: seq<byte>, quality: nat, table: Table)
    requires table == seq(ZHASH, _ => [])
    ensures Lazily(data, quality, [], [table])
  {
  }

  /** Another search. */
  lemma LazilySearched(data: seq<byte>, quality: nat, tokens: seq<Token>, tables: seq<Table>, table: Table, t: Token)
    requires Lazily(data, quality, tokens, tables) && |tables| == |tokens| + 1
    requires Searched(data, quality, Covered(tokens), tables[|tokens|], table, t)
    ensures Lazily(data, quality, tokens + [t], tables + [table])
  {
    hide Searched, Covered;
    var n := |tokens|;
    forall m | 0 <= m < n + 1 ensures TokenOk(data, quality, tokens + [t], tables + [table], m) {
      assert (tokens + [t])[..m] == tokens[..m];
      if m < n { assert TokenOk(data, quality, tokens, tables, m); } else { assert tokens[..m] == tokens; }
    }
  }

  /** Another of the last bytes. */
  lemma LazilyLiteral(data: seq<byte>, quality: nat, tokens: seq<Token>, tables: seq<Table>, t: Token)
    requires Lazily(data, quality, tokens, tables) && t.Literal? && Covered(tokens) + 3 >= |data|
    ensures Lazily(data, quality, tokens + [t], tables)
  {
    hide Searched, Covered;
    var n := |tokens|;
    forall m | 0 <= m < n + 1 ensures TokenOk(data, quality, tokens + [t], tables, m) {
      assert (tokens + [t])[..m] == tokens[..m];
      if m < n { assert TokenOk(data, quality, tokens, tables, m); } else { assert tokens[..m] == tokens; }
    }
  }

  method EmitAll(data: seq<byte>, w: BitWriter, quality: nat)
    returns (ghost tokens: seq<Token>, ghost tables: seq<Table>)
    requires w.Valid() && w.Written() == HeaderBits() && quality >= 1
    modifies w
    ensures w.Valid() && Emitted(data, |data|, tokens, w.Written())
    ensures Lazily(data, quality, tokens, tables) && Covered(tokens) == |data|
  {
    hide HeaderBits, HashAt, Lazily, Covered, StandsFor, Emitted, TableValid, Chosen, LongestChosen, Pushed;
    var hash_table := new seq<nat>[ZHASH](_ => []);
    tokens, tables := [], [hash_table[..]];
    var i: nat := 0;
    EmitNone(data, quality, hash_table[..]);
    while i < |data| - 3
      invariant w.Valid() && Emitted(data, i, tokens, w.Written())
      invariant TableValid(data, i, hash_table[..], quality)
      invariant Covered(tokens) == i && |tables| == |tokens| + 1 && tables[|tokens|] == hash_table[..]
      invariant Lazily(data, quality, tokens, tables)
      decreases |data| - i
    {
      assert hash_table.Length == ZHASH by { TableLength(data, i, hash_table[..], quality); }
      var t, n := ChooseToken(data, i, hash_table, quality);
      TokenStands(data, i, t, n);
      TableGrows(data, i + 1, i + n, hash_table[..], quality);
      LazilySearched(data, quality, tokens, tables, hash_table[..], t);
      CoveredSnoc(tokens, t);
      tables := tables + [hash_table[..]];
      tokens := Emit(data, i, w, t, n, tokens);
      i := i + n;
    }
    while i < |data|
      invariant w.Valid() && Emitted(data, i, tokens, w.Written())
      invariant Covered(tokens) == i && i + 3 >= |data| && Lazily(data, quality, tokens, tables)
    {
      LiteralStandsFor(data, i);
      LazilyLiteral(data, quality, tokens, tables, Literal(data[i]));
      CoveredSnoc(tokens, Literal(data[i]));
      tokens := Emit(data, i, w, Literal(data[i]), 1, tokens);
      i := i + 1;
    }
    EmittedBound(data, i, tokens, w.Written());
  }

  lemma EmitNone(data: seq<byte>, quality: nat, table: Table)
    requires table == seq(ZHASH, _ => [])
    ensures Emitted(data, 0, [], HeaderBits()) && TableValid(data, 0, table, quality)
    ensures Covered([]) == 0 && Lazily(data, quality, [], [table])
  {
    LazilyNone(data, quality, table);
  }

  lemma TableLength(data: seq<byte>, i: nat, table: Table, quality: nat)
    requires TableValid(data, i, table, quality)
    ensures |table| == ZHASH
  {
  }

  lemma TokenStands(data: seq<byte>, i: nat, t: Token, n: nat)
    requires StandsFor(data, i, t, n) && TokenLength(t) == n
    ensures i + n <= |data| && n > 0
  {
  }

  lemma EmittedBound(data: seq<byte>, i: nat, tokens: seq<Token>, bits: seq<bool>)
    requires Emitted(data, i, tokens, bits)
    ensures i <= |data|
  {
  }

  lemma TableGrows(data: seq<byte>, i: nat, j: nat, table: seq<seq<nat>>, quality: nat)
    requires TableValid(data, i, table, quality) && i <= j
    ensures TableValid(data, j, table, quality)
  {
    forall h | 0 <= h < ZHASH ensures ListValid(data, j, h, table[h], quality) {
      assert ListValid(data, i, h, table[h], quality);
    }
  }

  /** The least quality that is used is 5. */
  function AtLeast5(quality: int): nat {
    if quality < 5 then 5 else quality
  }

  /**
   Inflating the output gives back the input, for every input and every quality;
   the output is the bits of the tokens found, zeros up to a byte, and the checksum.
   */
  method ZlibCompress(data: seq<byte>, quality: int) returns (out: seq<byte>, ghost tokens: seq<Token>)
    ensures WellFormed(tokens, []) && Expand(tokens, []) == data && |tokens| <= |data|
    ensures forall fuel: nat :: fuel > |data| ==> Inflate(out, true, fuel) == Done(|StreamBits(tokens)|, data)
    ensures var enough := if quality < 5 then 5 else quality;
            exists tables :: Lazily(data, enough, tokens, tables)
                             && |data| <= Covered(tokens[..|tables| - 1]) + 3
    ensures |out| >= 6 && out[0] == 0x78 && out[1] == 0x5e && out[|out| - 4..] == Adler32.Trailer(data)
    ensures var n := |data|;
            Adler32.BigEndian(out[|out| - 4..])
            == (n + Adler32.Weighted(data, n, n)) % 65521 * 65536 + (1 + Adler32.Total(data, n)) % 65521
    ensures BytesBits(out[..|out| - 4]) == StreamBits(tokens) + Fill(false, Padding(|StreamBits(tokens)|))
    ensures |out| == (|StreamBits(tokens)| + 7) / 8 + 4
  {
    hide ToBits, BytesBits, TokensBits, SymbolBits, Inflate, Expand, WellFormed, HuffLen, Adler32.Trailer, Lazily,
         Fill, Padding;
    var quality' := AtLeast5(quality);
    var w := new BitWriter();
    w.Add(1, 1);
    w.Add(1, 2);
    ghost var tables: seq<Table>;
    tokens, tables := EmitAll(data, w, quality');
    UnsearchedTail(data, quality', tokens, tables);
    AddSymbol(w, 256);
    assert w.Written() == StreamBits(tokens);
    w.Pad();
    var tail := AdlerBytes(data);
    out := w.out + tail;
    OutputInflates(data, tokens, w.out, tail);
    assert out[|out| - 4..] == tail && out[..|out| - 4] == w.out;
    Adler32.TrailerIsChecksum(data);
    assert |out| >= 6 by { AtLeastTwo(w.out, tokens); }
    PaddedLength(|StreamBits(tokens)|, |w.out|);
  }

  /** At most three bytes are not searched for. */
  lemma UnsearchedTail(data: seq<byte>, quality: nat, tokens: seq<Token>, tables: seq<Table>)
    requires Lazily(data, quality, tokens, tables) && Covered(tokens) == |data|
    ensures 1 <= |tables| <= |tokens| + 1 && |data| <= Covered(tokens[..|tables| - 1]) + 3
  {
    var m := |tables| - 1;
    if m < |tokens| { assert TokenOk(data, quality, tokens, tables, m); } else { assert tokens[..m] == tokens; }
  }

  lemma PaddedLength(bits: nat, bytes: nat)
    requires 8 * bytes == bits + Padding(bits)
    ensures bytes == (bits + 7) / 8
  {
  }

  lemma AtLeastTwo(out: seq<byte>, tokens: seq<Token>)
    requires WellFormed(tokens, []) && StreamBits(tokens) <= BytesBits(out)
    ensures |out| >= 2
  {
    hide ToBits, TokensBits, SymbolBits;
  }

  /** The four bytes of the checksum, most significant first. */
  method AdlerBytes(data: seq<byte>) returns (tail: seq<byte>)
    ensures |tail| == 4 && tail == Adler32.Trailer(data)
    ensures var n := |data|;
            Adler32.BigEndian(tail)
            == (n + Adler32.Weighted(data, n, n)) % 65521 * 65536 + (1 + Adler32.Total(data, n)) % 65521
  {
    hide Adler32.Sum1, Adler32.Sum2;
    var s1, s2 := Adler32.Adler(data);
    Adler32.TrailerIsChecksum(data);
    tail := [s2 / 256 % 256, s2 % 256, s1 / 256 % 256, s1 % 256];
  }

  lemma HeadInBits(out: seq<byte>, tail: seq<byte>, tokens: seq<Token>)
    requires WellFormed(tokens, []) && StreamBits(tokens) <= BytesBits(out)
    ensures ByteAt(out + tail, 0) == 0x78 && ByteAt(out + tail, 1) == 0x5e
  {
    hide BytesBits, Holds, ToBits, TokensBits, SymbolBits;
    BytesHold(out, tail, StreamBits(tokens));
    HoldsSplit(out + tail, 0, ToBits(0x78, 8) + ToBits(0x5e, 8) + ToBits(1, 1) + ToBits(1, 2),
               TokensBits(tokens, []) + SymbolBits(256));
    HeaderStands(out + tail);
  }

  lemma OutputInflates(data: seq<byte>, tokens: seq<Token>, out: seq<byte>, tail: seq<byte>)
    requires WellFormed(tokens, []) && Expand(tokens, []) == data && |tokens| <= |data|
    requires StreamBits(tokens) <= BytesBits(out)
    ensures forall fuel: nat :: fuel > |data| ==> Inflate(out + tail, true, fuel) == Done(|StreamBits(tokens)|, data)
    ensures ByteAt(out + tail, 0) == 0x78 && ByteAt(out + tail, 1) == 0x5e
  {
    HeadInBits(out, tail, tokens);
    hide StreamBits, BytesBits, Inflate, Holds, Expand, WellFormed;
    BytesHold(out, tail, StreamBits(tokens));
    forall fuel: nat | fuel > |data|
      ensures Inflate(out + tail, true, fuel) == Done(|StreamBits(tokens)|, data)
    {
      StreamInflates(out + tail, tokens, fuel);
    }
  }
}
