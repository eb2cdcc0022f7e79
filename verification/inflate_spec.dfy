/**
 What an inflater has to compute: blocks, codes and tokens of RFC 1951 read bit
 by bit from the stream, with the naive Huffman decoder.
 */
module InflateSpec {
  import opened Basics
  import opened Bits
  import opened BitStream
  import opened DeflateTables
  import opened Huffman

  /**
   `fuel` bounds tokens per block and blocks. If one more than the stream has bits is
   not enough, none is: decoding has no end.
   */
  datatype Outcome =
    | Done(at: nat, out: seq<byte>)
    | Corrupt
    | Unspecified // distance 0: the source copies bytes it has not written
    | OutOfFuel

  const DEZIGZAG: seq<nat> := [16, 17, 18, 0, 8, 7, 9, 6, 10, 5, 11, 4, 12, 3, 13, 2, 14, 1, 15]

  const END_OF_BLOCK := 256

  /** Appends `len` bytes, each the one `dist` back. */
  function Copy(out: seq<byte>, len: nat, dist: nat): (r: seq<byte>)
    requires 1 <= dist <= |out|
    ensures |r| == |out| + len && out <= r
    decreases len
  {
    if len == 0 then out else Copy(out + [out[|out| - dist]], len - 1, dist)
  }

  /** The symbol whose code is next in the stream, -1 if there is none. */
  function NextSymbol(lens: seq<nat>, z: seq<byte>, at: nat): (r: int)
    ensures -1 <= r < |lens|
  {
    NaiveDecode(lens, Peek(z, at, 15), 1)
  }

  /** One literal, one copy, or the end of the block. */
  datatype Step = More(at: nat, out: seq<byte>) | End(at: nat, out: seq<byte>) | BadCode | Unwritten

  function OneToken(lens: seq<nat>, dists: seq<nat>, z: seq<byte>, at: nat, out: seq<byte>): Step {
    var sym := NextSymbol(lens, z, at);
    if sym < 0 then BadCode
    else if sym < END_OF_BLOCK then More(at + lens[sym], out + [sym])
    else if sym == END_OF_BLOCK then End(at + lens[sym], out)
    else OneCopy(dists, z, at + lens[sym], out, sym - 257)
  }

  /** The rest of a copy whose length symbol is `l`. */
  function OneCopy(dists: seq<nat>, z: seq<byte>, at: nat, out: seq<byte>, l: nat): Step {
    var (at, len) := LengthAt(z, at, l);
    var d := NextSymbol(dists, z, at);
    if d < 0 then BadCode
    else
      var (at, dist) := DistAt(z, at + dists[d], d);
      CopyStep(at, out, len, dist)
  }

  function CopyStep(at: nat, out: seq<byte>, len: nat, dist: nat): Step {
    if |out| < dist then BadCode
    else if len == 0 then More(at, out)
    else if dist == 0 then Unwritten
    else More(at, Copy(out, len, dist))
  }

  function CompressedBlock(lens: seq<nat>, dists: seq<nat>, z: seq<byte>, at: nat, out: seq<byte>, fuel: nat): Outcome
    decreases fuel, |z|
  {
    if fuel == 0 then OutOfFuel
    else match OneToken(lens, dists, z, at, out)
      case More(at, out) => CompressedBlock(lens, dists, z, at, out, fuel - 1)
      case End(at, out) => Done(at, out)
      case BadCode => Corrupt
      case Unwritten => Unspecified
  }

  function LengthAt(z: seq<byte>, at: nat, l: nat): (nat, nat) {
    (at + LengthExtra(l), LengthBase(l) + Peek(z, at, LengthExtra(l)))
  }

  function DistAt(z: seq<byte>, at: nat, d: nat): (nat, nat) {
    (at + DistExtra(d), DistBase(d) + Peek(z, at, DistExtra(d)))
  }

  /** A stored block: byte-aligned length, its complement, and the bytes. */
  function StoredBlock(z: seq<byte>, at: nat, out: seq<byte>): Outcome {
    var q := (at + 7) / 8;
    var len := ByteAt(z, q + 1) * 256 + ByteAt(z, q);
    var nlen := ByteAt(z, q + 3) * 256 + ByteAt(z, q + 2);
    if nlen != 0xFFFF - len || q + 4 + len > |z| then Corrupt
    else Done(8 * (q + 4 + len), out + z[q + 4..q + 4 + len])
  }

  // ----- the code lengths of a dynamic block

  datatype Codes = Codes(at: nat, lens: seq<nat>, dists: seq<nat>) | BadCodes

  /** The lengths of the code-length code, the first `n` of them read from the stream. */
  function CodeLengthSizes(z: seq<byte>, at: nat, n: nat): (r: seq<nat>)
    requires n <= 19
    ensures |r| == 19 && forall i :: 0 <= i < 19 ==> r[i] < 8
  {
    if n == 0 then seq(19, _ => 0)
    else
      PeekBound(z, at + 3 * (n - 1), 3);
      assert Pow2(3) == 8;
      CodeLengthSizes(z, at, n - 1)[DEZIGZAG[n - 1] := Peek(z, at + 3 * (n - 1), 3)]
  }

  datatype Lengths = Lengths(at: nat, lens: seq<nat>) | BadLengths

  /** Reads run-length coded code lengths until there are `total`. */
  function ReadLengths(cl: seq<nat>, z: seq<byte>, at: nat, total: nat, acc: seq<nat>): (r: Lengths)
    requires |cl| == 19 && |acc| <= total
    requires forall i :: 0 <= i < |acc| ==> acc[i] <= 15
    ensures r.Lengths? ==> |r.lens| == total && forall i :: 0 <= i < total ==> r.lens[i] <= 15
    decreases total - |acc|
  {
    if |acc| == total then Lengths(at, acc)
    else
      var c := NextSymbol(cl, z, at);
      if c < 0 then BadLengths
      else
        var at := at + cl[c];
        if c < 16 then ReadLengths(cl, z, at, total, acc + [c])
        else if c == 16 && acc == [] then BadLengths
        else
          var bits := RepeatBits(c);
          var n := RepeatBase(c) + Peek(z, at, bits);
          var fill := if c == 16 then acc[|acc| - 1] else 0;
          if total - |acc| < n then BadLengths
          else ReadLengths(cl, z, at + bits, total, acc + Fill(fill, n))
  }

  function RepeatBits(c: nat): nat {
    if c == 16 then 2 else if c == 17 then 3 else 7
  }

  function RepeatBase(c: nat): nat {
    if c == 18 then 11 else 3
  }

  function DynamicCodes(z: seq<byte>, at: nat): (r: Codes)
    ensures r.Codes? ==> |r.lens| <= 288 && |r.dists| <= 32
  {
    PeekBound(z, at, 5);
    PeekBound(z, at + 5, 5);
    PeekBound(z, at + 10, 4);
    assert Pow2(5) == 32 && Pow2(4) == 16;
    var hlit := Peek(z, at, 5) + 257;
    var hdist := Peek(z, at + 5, 5) + 1;
    var hclen := Peek(z, at + 10, 4) + 4;
    var cl := CodeLengthSizes(z, at + 14, hclen);
    if !Accepted(cl) then BadCodes
    else
      var r := ReadLengths(cl, z, at + 14 + 3 * hclen, hlit + hdist, []);
      if r.BadLengths? || !Accepted(r.lens[..hlit]) || !Accepted(r.lens[hlit..]) then BadCodes
      else Codes(r.at, r.lens[..hlit], r.lens[hlit..])
  }

  // ----- the whole stream

  /** The code lengths of a fixed block. */
  const FIXED_LENS: seq<nat> := Fill(8, 144) + Fill(9, 112) + Fill(7, 24) + Fill(8, 8)
  const FIXED_DISTS: seq<nat> := Fill(5, 32)

  lemma {:induction false} CountFill(v: nat, n: nat, s: nat)
    ensures Count(Fill(v, n), s) == if v == s then n else 0
  {
    if n > 0 {
      assert Fill(v, n)[..n - 1] == Fill(v, n - 1);
      CountFill(v, n - 1, s);
    }
  }

  lemma {:induction false} CountConcat(a: seq<nat>, b: seq<nat>, s: nat)
    ensures Count(a + b, s) == Count(a, s) + Count(b, s)
  {
    if b == [] {
      assert a + b == a;
    } else {
      assert (a + b)[..|a + b| - 1] == a + b[..|b| - 1];
      CountConcat(a, b[..|b| - 1], s);
    }
  }

  lemma FixedCounts(s: nat)
    ensures Count(FIXED_LENS, s) == if s == 7 then 24 else if s == 8 then 152 else if s == 9 then 112 else 0
    ensures Count(FIXED_DISTS, s) == if s == 5 then 32 else 0
  {
    CountConcat(Fill(8, 144), Fill(9, 112), s);
    CountConcat(Fill(8, 144) + Fill(9, 112), Fill(7, 24), s);
    CountConcat(Fill(8, 144) + Fill(9, 112) + Fill(7, 24), Fill(8, 8), s);
    CountFill(8, 144, s);
    CountFill(9, 112, s);
    CountFill(7, 24, s);
    CountFill(8, 8, s);
    CountFill(5, 32, s);
  }

  /** The first codes of section 3.2.6 of RFC 1951. */
  lemma {:induction false} FixedFirstCode(s: nat)
    ensures s <= 7 ==> FirstCode(FIXED_LENS, s) == 0
    ensures s == 8 ==> FirstCode(FIXED_LENS, s) == 0x30
    ensures s == 9 ==> FirstCode(FIXED_LENS, s) == 0x190
    ensures s <= 5 ==> FirstCode(FIXED_DISTS, s) == 0
    ensures EndCode(FIXED_LENS, s) <= Pow2(s) && EndCode(FIXED_DISTS, s) <= Pow2(s)
    ensures s >= 9 ==> EndCode(FIXED_LENS, s) == Pow2(s)
    ensures 7 <= s < 9 ==> Pow2(s) == if s == 7 then 128 else 256
    ensures s >= 5 ==> EndCode(FIXED_DISTS, s) == Pow2(s)
  {
    FixedCounts(s);
    if s > 0 { FixedFirstCode(s - 1); FixedCounts(s - 1); }
    if s == 5 || s == 7 { Pow2Values(4); }
  }

  lemma FixedAccepted()
    ensures ValidLens(FIXED_LENS) && Accepted(FIXED_LENS)
    ensures ValidLens(FIXED_DISTS) && Accepted(FIXED_DISTS) && |FIXED_DISTS| == 32
  {
    forall s | 1 <= s <= 15 ensures Fits(FIXED_LENS, s) && Fits(FIXED_DISTS, s) { FixedFirstCode(s); }
  }

  function OneBlock(z: seq<byte>, at: nat, out: seq<byte>, kind: nat, fuel: nat): Outcome {
    if kind == 0 then StoredBlock(z, at, out)
    else if kind == 1 then CompressedBlock(FIXED_LENS, FIXED_DISTS, z, at, out, fuel)
    else if kind == 2 then
      var codes := DynamicCodes(z, at);
      if codes.BadCodes? then Corrupt
      else CompressedBlock(codes.lens, codes.dists, z, codes.at, out, fuel)
    else Corrupt
  }

  function Blocks(z: seq<byte>, at: nat, out: seq<byte>, fuel: nat): Outcome
    decreases fuel, |z|
  {
    if fuel == 0 then OutOfFuel
    else
      var r := OneBlock(z, at + 3, out, Peek(z, at + 1, 2), fuel);
      if !r.Done? || Peek(z, at, 1) == 1 then r
      else Blocks(z, r.at, r.out, fuel - 1)
  }

  /** Method 8, no preset dictionary, and the check bits of section 2.2 of RFC 1950. */
  predicate HeaderOk(cmf: byte, flg: byte) {
    (cmf * 256 + flg) % 31 == 0 && flg / 32 % 2 == 0 && cmf % 16 == 8
  }

  /** A zlib stream, or a bare DEFLATE stream when there is no `header`. */
  function Inflate(z: seq<byte>, header: bool, fuel: nat): Outcome {
    if !header then Blocks(z, 0, [], fuel)
    else if !HeaderOk(ByteAt(z, 0), ByteAt(z, 1)) then Corrupt
    else Blocks(z, 16, [], fuel)
  }
}
