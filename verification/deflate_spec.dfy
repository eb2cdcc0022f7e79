/**
 LZ77 tokens, their bits under the fixed codes of section 3.2.6 of RFC 1951, and
 that reading these bits back gives the data the tokens stand for.
 */
module DeflateSpec {
  import opened Basics
  import opened Bits
  import opened BitStream
  import opened DeflateTables
  import opened Huffman
  import opened InflateSpec

  datatype Token = Literal(b: byte) | Match(len: nat, dist: nat)

  /** The limits of the format, with `n` bytes already emitted; the encoder stays one short of the longest distance. */
  predicate Encodable(t: Token, n: nat) {
    t.Literal? || (3 <= t.len <= 258 && 1 <= t.dist <= 32767 && t.dist <= n)
  }

  function Apply(t: Token, out: seq<byte>): seq<byte>
    requires Encodable(t, |out|)
  {
    match t
    case Literal(b) => out + [b]
    case Match(len, dist) => Copy(out, len, dist)
  }

  predicate WellFormed(tokens: seq<Token>, out: seq<byte>) {
    tokens == [] || (Encodable(tokens[0], |out|) && WellFormed(tokens[1..], Apply(tokens[0], out)))
  }

  /** The bytes that the tokens stand for, after `out`. */
  function Expand(tokens: seq<Token>, out: seq<byte>): (r: seq<byte>)
    requires WellFormed(tokens, out)
    ensures |r| >= |out| + |tokens|
  {
    if tokens == [] then out else Expand(tokens[1..], Apply(tokens[0], out))
  }

  // ----- bits

  /** The low `n` bits of `v`, least significant first. */
  function ToBits(v: nat, n: nat): (r: seq<bool>)
    ensures |r| == n
    decreases n
  {
    if n == 0 then [] else [v % 2 == 1] + ToBits(v / 2, n - 1)
  }

  predicate Holds(z: seq<byte>, at: nat, bits: seq<bool>) {
    forall i :: 0 <= i < |bits| ==> StreamBit(z, at + i) == bits[i]
  }

  lemma HoldsSplit(z: seq<byte>, at: nat, a: seq<bool>, b: seq<bool>)
    requires Holds(z, at, a + b)
    ensures Holds(z, at, a) && Holds(z, at + |a|, b)
  {
    forall i | 0 <= i < |a| ensures StreamBit(z, at + i) == a[i] {
      assert (a + b)[i] == a[i];
    }
    forall i | 0 <= i < |b| ensures StreamBit(z, at + |a| + i) == b[i] {
      assert (a + b)[|a| + i] == b[i];
    }
  }

  lemma {:induction false} PeekHolds(z: seq<byte>, at: nat, v: nat, n: nat)
    requires v < Pow2(n) && Holds(z, at, ToBits(v, n))
    ensures Peek(z, at, n) == v
    decreases n
  {
    if n > 0 {
      HoldsSplit(z, at, [v % 2 == 1], ToBits(v / 2, n - 1));
      assert StreamBit(z, at + 0) == [v % 2 == 1][0];
      PeekHolds(z, at + 1, v / 2, n - 1);
    }
  }

  lemma {:induction false} ToBitsAt(v: nat, n: nat, i: nat)
    requires i < n
    ensures ToBits(v, n)[i] == Bit(v, i)
    decreases i
  {
    if i > 0 { ToBitsAt(v / 2, n - 1, i - 1); }
  }

  // ----- the fixed codes

  function HuffCode(n: nat): nat
    requires n < 288
  {
    if n <= 143 then 0x30 + n else if n <= 255 then 0x190 + n - 144 else if n <= 279 then n - 256 else 0xc0 + n - 280
  }

  function HuffLen(n: nat): nat {
    if n <= 143 then 8 else if n <= 255 then 9 else if n <= 279 then 7 else 8
  }

  lemma FixedLen(n: nat)
    requires n < 288
    ensures FIXED_LENS[n] == HuffLen(n)
  {
  }

  lemma FixedPrefix(n: nat)
    requires n < 288
    ensures FIXED_LENS[..n] ==
            if n <= 144 then Fill<nat>(8, n)
            else if n <= 256 then Fill<nat>(8, 144) + Fill<nat>(9, n - 144)
            else if n <= 280 then Fill<nat>(8, 144) + Fill<nat>(9, 112) + Fill<nat>(7, n - 256)
            else Fill<nat>(8, 144) + Fill<nat>(9, 112) + Fill<nat>(7, 24) + Fill<nat>(8, n - 280)
  {
  }

  /** How many of the symbols before `n` have its length. */
  lemma FixedRank(n: nat)
    requires n < 288
    ensures Rank(FIXED_LENS, n) ==
            if n <= 143 then n else if n <= 255 then n - 144 else if n <= 279 then n - 256 else 144 + n - 280
  {
    hide Count;
    FixedLen(n);
    FixedPrefix(n);
    var s := HuffLen(n);
    CountFill(8, 144, s);
    CountFill(9, 112, s);
    CountFill(7, 24, s);
    if n <= 143 {
      CountFill(8, n, s);
    } else if n <= 255 {
      CountFill(9, n - 144, s);
      CountFill(8, n, s);
      CountConcat(Fill<nat>(8, 144), Fill<nat>(9, n - 144), s);
    } else if n <= 279 {
      CountFill(7, n - 256, s);
      CountConcat(Fill<nat>(8, 144), Fill<nat>(9, 112), s);
      CountConcat(Fill<nat>(8, 144) + Fill<nat>(9, 112), Fill<nat>(7, n - 256), s);
    } else {
      CountFill(8, n - 280, s);
      CountConcat(Fill<nat>(8, 144), Fill<nat>(9, 112), s);
      CountConcat(Fill<nat>(8, 144) + Fill<nat>(9, 112), Fill<nat>(7, 24), s);
      CountConcat(Fill<nat>(8, 144) + Fill<nat>(9, 112) + Fill<nat>(7, 24), Fill<nat>(8, n - 280), s);
    }
  }

  /** The encoder's formulas give the canonical code of the decoder's length list. */
  lemma FixedCode(n: nat)
    requires n < 288
    ensures Code(FIXED_LENS, n) == HuffCode(n) < Pow2(HuffLen(n))
  {
    FixedLen(n);
    FixedRank(n);
    FixedFirstCode(HuffLen(n));
    FixedFirstCode(8);
  }

  lemma FixedDistCode(j: nat)
    requires j < 32
    ensures FIXED_DISTS[j] == 5 && Code(FIXED_DISTS, j) == j < Pow2(5)
  {
    FixedFirstCode(5);
    assert FIXED_DISTS[..j] == Fill<nat>(5, j);
    CountFill(5, j, 5);
  }

  /** The bits of a code, most significant first. */
  function CodeBits(c: nat, n: nat): (r: seq<bool>)
    ensures |r| == n
  {
    ToBits(Rev(c, n), n)
  }

  function SymbolBits(n: nat): (r: seq<bool>)
    requires n < 288
    ensures |r| == HuffLen(n)
  {
    CodeBits(HuffCode(n), HuffLen(n))
  }

  /** Wherever the bits of a symbol's code stand, naive decoding reads the symbol. */
  lemma CodeDecodes(lens: seq<nat>, z: seq<byte>, at: nat, i: nat)
    requires ValidLens(lens) && i < |lens| && lens[i] > 0 && Code(lens, i) < Pow2(lens[i])
    requires Holds(z, at, CodeBits(Code(lens, i), lens[i]))
    ensures NextSymbol(lens, z, at) == i
  {
    var n := lens[i];
    var c := Code(lens, i);
    RevBound(c, n);
    PeekHolds(z, at, Rev(c, n), n);
    PeekRev(z, at, 15, n, n);
    RevRev(c, n);
    NaiveDecodeFinds(lens, i, Peek(z, at, 15));
  }

  lemma SymbolDecodes(z: seq<byte>, at: nat, n: nat)
    requires n < 288 && Holds(z, at, SymbolBits(n))
    ensures NextSymbol(FIXED_LENS, z, at) == n && FIXED_LENS[n] == HuffLen(n)
  {
    FixedLen(n);
    FixedCode(n);
    FixedAccepted();
    CodeDecodes(FIXED_LENS, z, at, n);
  }

  lemma DistDecodes(z: seq<byte>, at: nat, k: nat)
    requires k < 32 && Holds(z, at, CodeBits(k, 5))
    ensures NextSymbol(FIXED_DISTS, z, at) == k && FIXED_DISTS[k] == 5
  {
    FixedDistCode(k);
    FixedAccepted();
    CodeDecodes(FIXED_DISTS, z, at, k);
  }

  // ----- tokens as bits

  /** The interval of `len`, searched from the `j`th on. */
  function LengthIndex(len: nat, j: nat): (r: nat)
    requires j < 29 && Lengthc(j) <= len <= 258
    ensures r < 29 && Lengthc(r) <= len < Lengthc(r + 1)
    decreases 29 - j
  {
    LengthInterval(j);
    if len > Lengthc(j + 1) - 1 then LengthIndex(len, j + 1) else j
  }

  function DistIndex(dist: nat, j: nat): (r: nat)
    requires j < 30 && Distc(j) <= dist <= 32767
    ensures r < 30 && Distc(r) <= dist < Distc(r + 1)
    decreases 30 - j
  {
    DistInterval(j);
    if dist > Distc(j + 1) - 1 then DistIndex(dist, j + 1) else j
  }

  function LengthBits(len: nat): seq<bool>
    requires 3 <= len <= 258
  {
    var j := LengthIndex(len, 0);
    SymbolBits(257 + j) + ToBits(len - Lengthc(j), Lengtheb(j))
  }

  function DistBits(dist: nat): seq<bool>
    requires 1 <= dist <= 32767
  {
    var j := DistIndex(dist, 0);
    CodeBits(j, 5) + ToBits(dist - Distc(j), Disteb(j))
  }

  function TokenBits(t: Token, n: nat): seq<bool>
    requires Encodable(t, n)
  {
    match t
    case Literal(b) => SymbolBits(b)
    case Match(len, dist) => LengthBits(len) + DistBits(dist)
  }

  function TokensBits(tokens: seq<Token>, out: seq<byte>): seq<bool>
    requires WellFormed(tokens, out)
  {
    if tokens == [] then []
    else TokenBits(tokens[0], |out|) + TokensBits(tokens[1..], Apply(tokens[0], out))
  }

  // ----- reading tokens back

  lemma LengthDecodes(z: seq<byte>, at: nat, len: nat) returns (j: nat)
    requires 3 <= len <= 258 && Holds(z, at, LengthBits(len))
    ensures j < 29 && NextSymbol(FIXED_LENS, z, at) == 257 + j
    ensures LengthAt(z, at + FIXED_LENS[257 + j], j) == (at + |LengthBits(len)|, len)
  {
    hide NextSymbol, Peek, StreamBit, Pow2, ToBits, LengthIndex, HuffCode, Rev, FIXED_LENS, Holds, Lengtheb,
         LengthBase, LengthExtra;
    j := LengthIndex(len, 0);
    LengthInterval(j);
    HoldsSplit(z, at, SymbolBits(257 + j), ToBits(len - Lengthc(j), Lengtheb(j)));
    SymbolDecodes(z, at, 257 + j);
    PeekHolds(z, at + HuffLen(257 + j), len - Lengthc(j), Lengtheb(j));
  }

  lemma DistanceDecodes(z: seq<byte>, at: nat, dist: nat) returns (j: nat)
    requires 1 <= dist <= 32767 && Holds(z, at, DistBits(dist))
    ensures j < 30 && NextSymbol(FIXED_DISTS, z, at) == j
    ensures DistAt(z, at + FIXED_DISTS[j], j) == (at + |DistBits(dist)|, dist)
  {
    hide NextSymbol, Peek, StreamBit, Pow2, ToBits, DistIndex, Rev, FIXED_DISTS, Holds, Disteb, DistBase, DistExtra;
    j := DistIndex(dist, 0);
    DistInterval(j);
    HoldsSplit(z, at, CodeBits(j, 5), ToBits(dist - Distc(j), Disteb(j)));
    DistDecodes(z, at, j);
    PeekHolds(z, at + 5, dist - Distc(j), Disteb(j));
  }

  lemma MatchDecodes(z: seq<byte>, at: nat, out: seq<byte>, len: nat, dist: nat)
    requires Encodable(Match(len, dist), |out|) && Holds(z, at, LengthBits(len) + DistBits(dist))
    ensures OneToken(FIXED_LENS, FIXED_DISTS, z, at, out)
         == More(at + |LengthBits(len)| + |DistBits(dist)|, Copy(out, len, dist))
  {
    hide NextSymbol, Peek, StreamBit, LengthBits, DistBits, LengthAt, DistAt, FIXED_LENS, FIXED_DISTS, Copy, Holds;
    HoldsSplit(z, at, LengthBits(len), DistBits(dist));
    var j := LengthDecodes(z, at, len);
    var k := DistanceDecodes(z, at + |LengthBits(len)|, dist);
  }

  lemma TokenDecodes(z: seq<byte>, at: nat, out: seq<byte>, t: Token)
    requires Encodable(t, |out|) && Holds(z, at, TokenBits(t, |out|))
    ensures OneToken(FIXED_LENS, FIXED_DISTS, z, at, out) == More(at + |TokenBits(t, |out|)|, Apply(t, out))
  {
    hide NextSymbol, StreamBit, LengthBits, DistBits, OneCopy;
    match t {
      case Literal(b) => { SymbolDecodes(z, at, b); }
      case Match(len, dist) => { MatchDecodes(z, at, out, len, dist); }
    }
  }

  /** A block of tokens closed by the end-of-block symbol decodes to what they stand for. */
  lemma {:induction false} TokensDecode(z: seq<byte>, at: nat, out: seq<byte>, tokens: seq<Token>, fuel: nat)
    requires WellFormed(tokens, out) && fuel > |tokens|
    requires Holds(z, at, TokensBits(tokens, out) + SymbolBits(256))
    ensures CompressedBlock(FIXED_LENS, FIXED_DISTS, z, at, out, fuel)
         == Done(at + |TokensBits(tokens, out)| + 7, Expand(tokens, out))
    decreases |tokens|
  {
    hide OneToken, StreamBit, TokenBits, SymbolBits, HuffLen, FIXED_LENS, FIXED_DISTS, Holds, Copy, Apply;
    if tokens == [] {
      assert TokensBits(tokens, out) + SymbolBits(256) == SymbolBits(256);
      EndDecodes(z, at, out);
    } else {
      var first := TokenBits(tokens[0], |out|);
      var rest := TokensBits(tokens[1..], Apply(tokens[0], out));
      assert first + rest + SymbolBits(256) == first + (rest + SymbolBits(256));
      HoldsSplit(z, at, first, rest + SymbolBits(256));
      TokenDecodes(z, at, out, tokens[0]);
      TokensDecode(z, at + |first|, Apply(tokens[0], out), tokens[1..], fuel - 1);
    }
  }

  lemma EndDecodes(z: seq<byte>, at: nat, out: seq<byte>)
    requires Holds(z, at, SymbolBits(256))
    ensures OneToken(FIXED_LENS, FIXED_DISTS, z, at, out) == End(at + 7, out)
  {
    SymbolDecodes(z, at, 256);
  }

  /** The zlib header, and a last block with the fixed codes. */
  function StreamBits(tokens: seq<Token>): seq<bool>
    requires WellFormed(tokens, [])
  {
    ToBits(0x78, 8) + ToBits(0x5e, 8) + ToBits(1, 1) + ToBits(1, 2) + (TokensBits(tokens, []) + SymbolBits(256))
  }

  /** Inflating any bytes that start with the bits of a token list gives back what the tokens stand for. */
  lemma StreamInflates(z: seq<byte>, tokens: seq<Token>, fuel: nat)
    requires WellFormed(tokens, []) && fuel > |tokens|
    requires Holds(z, 0, StreamBits(tokens))
    ensures Inflate(z, true, fuel) == Done(|StreamBits(tokens)|, Expand(tokens, []))
  {
    hide CompressedBlock, StreamBit, ToBits, SymbolBits, Peek, Pow2, Expand, TokensBits, WellFormed, Holds;
    var rest := TokensBits(tokens, []) + SymbolBits(256);
    HoldsSplit(z, 0, ToBits(0x78, 8) + ToBits(0x5e, 8) + ToBits(1, 1) + ToBits(1, 2), rest);
    TokensDecode(z, 19, [], tokens, fuel);
    HeaderStands(z);
  }

  lemma HeaderStands(z: seq<byte>)
    requires Holds(z, 0, ToBits(0x78, 8) + ToBits(0x5e, 8) + ToBits(1, 1) + ToBits(1, 2))
    ensures ByteAt(z, 0) == 0x78 && ByteAt(z, 1) == 0x5e && Peek(z, 16, 1) == 1 && Peek(z, 17, 2) == 1
  {
    hide StreamBit, ToBits, Peek;
    HoldsSplit(z, 0, ToBits(0x78, 8) + ToBits(0x5e, 8) + ToBits(1, 1), ToBits(1, 2));
    HoldsSplit(z, 0, ToBits(0x78, 8) + ToBits(0x5e, 8), ToBits(1, 1));
    HoldsSplit(z, 0, ToBits(0x78, 8), ToBits(0x5e, 8));
    var eight := 8;
    Pow2Values(eight);
    assert Pow2(1) == 2 && Pow2(2) == 4;
    PeekHolds(z, 0, 0x78, eight);
    PeekHolds(z, 8, 0x5e, eight);
    PeekHolds(z, 16, 1, 1);
    PeekHolds(z, 17, 1, 2);
    PeekByte(z, 0, eight);
    PeekByte(z, 1, eight);
  }

  // ----- appending a token

  lemma {:induction false} Snoc(tokens: seq<Token>, t: Token, out: seq<byte>)
    requires WellFormed(tokens, out) && Encodable(t, |Expand(tokens, out)|)
    ensures WellFormed(tokens + [t], out)
    ensures Expand(tokens + [t], out) == Apply(t, Expand(tokens, out))
    ensures TokensBits(tokens + [t], out) == TokensBits(tokens, out) + TokenBits(t, |Expand(tokens, out)|)
    decreases |tokens|
  {
    hide TokenBits, Apply, Copy, Encodable;
    if tokens == [] {
      assert tokens + [t] == [t];
      assert [t][1..] == [];
    } else {
      assert (tokens + [t])[1..] == tokens[1..] + [t];
      Snoc(tokens[1..], t, Apply(tokens[0], out));
    }
  }

  /** Copying from where the data already agrees with itself reproduces the data, overlaps included. */
  lemma {:induction false} CopyReproduces(data: seq<byte>, i: nat, len: nat, dist: nat)
    requires 1 <= dist <= i && i + len <= |data|
    requires forall k :: i <= k < i + len ==> data[k] == data[k - dist]
    ensures Copy(data[..i], len, dist) == data[..i + len]
    decreases len
  {
    if len > 0 {
      assert data[i] == data[i - dist];
      assert data[..i] + [data[i - dist]] == data[..i + 1];
      CopyReproduces(data, i + 1, len - 1, dist);
    }
  }
}
