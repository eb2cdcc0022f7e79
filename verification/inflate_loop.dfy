/**
 Seven bytes on which the inflater does not end: a dynamic block in which every
 symbol has a code of nine bits, so that the zero bits behind the end are literals.
 */
module InflateLoop {
  import opened Basics
  import opened Bits
  import opened BitStream
  import opened Huffman
  import opened InflateSpec
  import opened InflateFuel

  const LOOPING: seq<byte> := [0x78, 0x5E, 0x05, 0x60, 0x00, 0x00, 0x08]

  // ----- codes of one length

  /** `c` symbols of length `s0` and no others. */
  ghost predicate OneLength(lens: seq<nat>, s0: nat, c: nat) {
    && 1 <= s0 <= 15 && c <= Pow2(s0) && ValidLens(lens)
    && forall s :: 1 <= s <= 15 ==> Count(lens, s) == if s == s0 then c else 0
  }

  lemma {:induction false} OneLengthCodes(lens: seq<nat>, s0: nat, c: nat, s: nat)
    requires OneLength(lens, s0, c) && s <= 15
    ensures EndCode(lens, s) <= Pow2(s)
    ensures s <= s0 ==> FirstCode(lens, s) == 0
  {
    if s > 0 { OneLengthCodes(lens, s0, c, s - 1); }
  }

  /** The first symbol of that length has the code of zero bits. */
  lemma OneLengthDecodes(lens: seq<nat>, s0: nat, c: nat, i: nat, z: seq<byte>, at: nat)
    requires OneLength(lens, s0, c) && i < |lens| && lens[i] == s0 && Count(lens[..i], s0) == 0 && Over(z, at)
    ensures Accepted(lens) && NextSymbol(lens, z, at) == i
  {
    forall s | 1 <= s <= 15 ensures Fits(lens, s) { OneLengthCodes(lens, s0, c, s); }
    hide Count, FirstCode, Peek, Over;
    OneLengthCodes(lens, s0, c, s0);
    PeekOver(z, at, 15);
    RevZero(s0);
    NaiveDecodeFinds(lens, i, 0);
  }

  lemma {:induction false} RevZero(s: nat)
    ensures Rev(0, s) == 0
  {
    if s > 0 { RevZero(s - 1); BitZero(s - 1); }
  }

  // ----- the code of the code lengths

  /** Only length 9 can be written, as a zero bit. */
  const NINES: seq<nat> := Fill(0, 9) + [1] + Fill(0, 9)

  lemma NinesCounts()
    ensures OneLength(NINES, 1, 1) && Count(NINES[..9], 1) == 0 && |NINES| == 19
  {
    assert NINES[..9] == Fill<nat>(0, 9);
    forall s: nat
      ensures Count(NINES, s) == (if s == 0 then 18 else if s == 1 then 1 else 0)
      ensures Count(NINES[..9], s) == if s == 0 then 9 else 0
    {
      CountConcat(Fill<nat>(0, 9) + [1], Fill<nat>(0, 9), s);
      CountConcat(Fill<nat>(0, 9), [1], s);
      CountFill(0, 9, s);
      assert [1][..0] == [];
    }
  }

  lemma NinesDecode(z: seq<byte>, at: nat)
    requires Over(z, at)
    ensures |NINES| == 19 && Accepted(NINES) && NextSymbol(NINES, z, at) == 9 && NINES[9] == 1
  {
    hide Over, NextSymbol, Accepted;
    NinesCounts();
    OneLengthDecodes(NINES, 1, 1, 9, z, at);
  }

  /** Zero bits are length 9 again and again. */
  lemma {:induction false} AllNines(z: seq<byte>, at: nat, total: nat, k: nat)
    requires k <= total && Over(z, at)
    ensures |NINES| == 19 && ReadLengths(NINES, z, at, total, Fill(9, k)) == Lengths(at + total - k, Fill(9, total))
    decreases total - k
  {
    hide NextSymbol, NINES, Accepted;
    NinesDecode(z, at);
    if k < total {
      assert Fill<nat>(9, k) + [9] == Fill<nat>(9, k + 1);
      AllNines(z, at + 1, total, k + 1);
    }
  }

  lemma NineCodes(n: nat, z: seq<byte>, at: nat)
    requires 1 <= n <= 257 && Over(z, at)
    ensures Accepted(Fill(9, n)) && NextSymbol(Fill(9, n), z, at) == 0
  {
    var lens := Fill<nat>(9, n);
    assert Pow2(9) == 512;
    forall s: nat ensures Count(lens, s) == if s == 9 then n else 0 { CountFill(9, n, s); }
    assert lens[..0] == [];
    hide Count, Accepted, NextSymbol;
    OneLengthDecodes(lens, 9, n, 0, z, at);
  }

  // ----- the stream

  lemma ByteBits(j: nat)
    requires j < 8
    ensures Bit(5, j) <==> j in {0, 2}
    ensures Bit(0x60, j) <==> j in {5, 6}
    ensures Bit(8, j) <==> j == 3
  {
    assert Bit(5, 0) && !Bit(5, 1) && Bit(5, 2) && !Bit(5, 3) && !Bit(5, 4) && !Bit(5, 5) && !Bit(5, 6) && !Bit(5, 7);
    assert !Bit(0x60, 0) && !Bit(0x60, 1) && !Bit(0x60, 2) && !Bit(0x60, 3) && !Bit(0x60, 4) && Bit(0x60, 5)
           && Bit(0x60, 6);
    assert !Bit(0x60, 7) && !Bit(8, 0) && !Bit(8, 1) && !Bit(8, 2) && Bit(8, 3) && !Bit(8, 4) && !Bit(8, 5)
           && !Bit(8, 6);
    assert !Bit(8, 7);
    if j == 0 {} else if j == 1 {} else if j == 2 {} else if j == 3 {}
    else if j == 4 {} else if j == 5 {} else if j == 6 {} else {}
  }

  /** The bits behind the zlib header. */
  lemma LoopingBits(i: nat)
    requires i >= 16
    ensures StreamBit(LOOPING, i) <==> i in {16, 18, 29, 30, 51}
  {
    hide Bit;
    ByteBits(i % 8);
    BitZero(i % 8);
    var k := i / 8;
    assert i == 8 * k + i % 8;
    if k == 2 {} else if k == 3 {} else if k == 6 {} else { assert ByteAt(LOOPING, k) == 0; }
  }

  lemma LoopingHeader()
    ensures Peek(LOOPING, 16, 1) == 1 && Peek(LOOPING, 17, 2) == 2
    ensures Peek(LOOPING, 19, 5) == 0 && Peek(LOOPING, 24, 5) == 0 && Peek(LOOPING, 29, 4) == 3
    ensures Over(LOOPING, 54)
  {
    hide StreamBit, Peek, LOOPING;
    var z := LOOPING;
    forall i: nat | 16 <= i ensures StreamBit(z, i) <==> i in {16, 18, 29, 30, 51} { LoopingBits(i); }
    PeekFirst(z, 16, 1);
    PeekFirst(z, 17, 2);
    PeekFirst(z, 18, 1);
    NoBits(z, 17, 0);
    NoBits(z, 19, 5);
    NoBits(z, 24, 5);
    PeekFirst(z, 29, 4);
    PeekFirst(z, 30, 3);
    NoBits(z, 31, 2);
    NoBits(z, 19, 0);
  }

  lemma PeekFirst(z: seq<byte>, at: nat, n: nat)
    requires n > 0
    ensures Peek(z, at, n) == B2N(StreamBit(z, at)) + 2 * Peek(z, at + 1, n - 1)
  {
  }

  lemma {:induction false} NoBits(z: seq<byte>, at: nat, n: nat)
    requires forall i: nat :: at <= i < at + n ==> !StreamBit(z, i)
    ensures Peek(z, at, n) == 0
    decreases n
  {
    if n > 0 { NoBits(z, at + 1, n - 1); }
  }

  /** The seven lengths of the code-length code: only the last is not zero. */
  lemma LoopingLength(k: nat)
    requires k < 7
    ensures Peek(LOOPING, 33 + 3 * k, 3) == if k == 6 then 1 else 0
  {
    hide StreamBit;
    var i := 33 + 3 * k;
    LoopingBits(i);
    LoopingBits(i + 1);
    LoopingBits(i + 2);
    assert Peek(LOOPING, i, 3) == B2N(StreamBit(LOOPING, i)) + 2 * Peek(LOOPING, i + 1, 2);
  }

  lemma {:induction false} LoopingSizes(n: nat)
    requires n <= 7
    ensures CodeLengthSizes(LOOPING, 33, n) == if n == 7 then NINES else Fill(0, 19)
  {
    hide Peek;
    if n > 0 {
      LoopingSizes(n - 1);
      LoopingLength(n - 1);
      assert Fill<nat>(0, 19)[9 := 1] == NINES;
    }
  }

  /** The header of a dynamic block whose codes all have nine bits, with only zero bits behind it. */
  ghost predicate NinesAt(z: seq<byte>, at: nat) {
    && Peek(z, at, 5) == 0 && Peek(z, at + 5, 5) == 0 && Peek(z, at + 10, 4) == 3
    && CodeLengthSizes(z, at + 14, 7) == NINES && Over(z, at + 35)
  }

  lemma NinesCodes(z: seq<byte>, at: nat)
    requires NinesAt(z, at)
    ensures DynamicCodes(z, at) == Codes(at + 293, Fill(9, 257), Fill(9, 1))
  {
    hide Peek, Over, CodeLengthSizes, NINES, Accepted, ReadLengths, NextSymbol;
    NinesDecode(z, at + 35);
    AllNines(z, at + 35, 258, 0);
    assert Fill<nat>(9, 0) == [];
    var lens := Fill<nat>(9, 258);
    assert lens[..257] == Fill<nat>(9, 257) && lens[257..] == Fill<nat>(9, 1);
    NineCodes(257, z, at + 35);
    NineCodes(1, z, at + 35);
  }

  /** Such a block never ends. */
  lemma NinesNeverEnd(z: seq<byte>, at: nat, out: seq<byte>, fuel: nat)
    requires NinesAt(z, at)
    ensures OneBlock(z, at, out, 2, fuel).OutOfFuel?
  {
    NinesCodes(z, at);
    hide DynamicCodes, Peek, Over, CodeLengthSizes, NINES, CompressedBlock, NextSymbol, Accepted;
    var end := at + 293;
    assert Over(z, end) by { OverLater(z, at + 35, end); }
    NineCodes(257, z, end);
    NeverEnds(Fill(9, 257), Fill(9, 1), z, end, out, fuel);
  }

  lemma OverLater(z: seq<byte>, a: nat, b: nat)
    requires Over(z, a) && a <= b
    ensures Over(z, b)
  {
  }

  lemma BlocksNeverEnd(z: seq<byte>, at: nat, out: seq<byte>, fuel: nat)
    requires Peek(z, at + 1, 2) == 2 && NinesAt(z, at + 3)
    ensures Blocks(z, at, out, fuel).OutOfFuel?
  {
    hide OneBlock, NinesAt, Peek;
    NinesNeverEnd(z, at + 3, out, fuel);
  }

  /** No fuel is enough for these bytes: the source writes zeros for as long as its buffer can grow. */
  lemma NoFuelIsEnough(fuel: nat)
    ensures Inflate(LOOPING, true, fuel).OutOfFuel?
  {
    hide Peek, CodeLengthSizes, NINES, Over, Blocks;
    LoopingHeader();
    LoopingSizes(7);
    BlocksNeverEnd(LOOPING, 16, [], fuel);
  }
}
