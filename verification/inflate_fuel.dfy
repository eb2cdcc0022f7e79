/**
 The inflater's specification without fuel. Where it has no end, a code keeps
 matching the zero bits behind the end of the stream, and no fuel is enough; else
 one unit of fuel for every bit of the stream, and one more, is.
 */
module InflateFuel {
  import opened Basics
  import opened Bits
  import opened BitStream
  import opened DeflateTables
  import opened Huffman
  import opened InflateSpec

  // ----- more fuel changes no result

  lemma {:induction false} TokensMoreFuel(lens: seq<nat>, dists: seq<nat>, z: seq<byte>, at: nat, out: seq<byte>,
                                          f: nat, g: nat)
    requires f <= g && !CompressedBlock(lens, dists, z, at, out, f).OutOfFuel?
    ensures CompressedBlock(lens, dists, z, at, out, g) == CompressedBlock(lens, dists, z, at, out, f)
    decreases f
  {
    hide OneToken;
    match OneToken(lens, dists, z, at, out)
    case More(at', out') => TokensMoreFuel(lens, dists, z, at', out', f - 1, g - 1);
    case _ =>
  }

  lemma BlockMoreFuel(z: seq<byte>, at: nat, out: seq<byte>, kind: nat, f: nat, g: nat)
    requires f <= g && !OneBlock(z, at, out, kind, f).OutOfFuel?
    ensures OneBlock(z, at, out, kind, g) == OneBlock(z, at, out, kind, f)
  {
    hide CompressedBlock, StoredBlock, DynamicCodes, FIXED_LENS, FIXED_DISTS;
    if kind == 1 {
      TokensMoreFuel(FIXED_LENS, FIXED_DISTS, z, at, out, f, g);
    } else if kind == 2 && DynamicCodes(z, at).Codes? {
      var codes := DynamicCodes(z, at);
      TokensMoreFuel(codes.lens, codes.dists, z, codes.at, out, f, g);
    }
  }

  lemma {:induction false} BlocksMoreFuel(z: seq<byte>, at: nat, out: seq<byte>, f: nat, g: nat)
    requires f <= g && !Blocks(z, at, out, f).OutOfFuel?
    ensures Blocks(z, at, out, g) == Blocks(z, at, out, f)
    decreases f
  {
    hide OneBlock, Peek;
    BlockMoreFuel(z, at + 3, out, Peek(z, at + 1, 2), f, g);
    var r := OneBlock(z, at + 3, out, Peek(z, at + 1, 2), f);
    if r.Done? && Peek(z, at, 1) != 1 { BlocksMoreFuel(z, r.at, r.out, f - 1, g - 1); }
  }

  /** A result does not depend on the fuel. */
  lemma MoreFuel(z: seq<byte>, header: bool, f: nat, g: nat)
    requires f <= g && !Inflate(z, header, f).OutOfFuel?
    ensures Inflate(z, header, g) == Inflate(z, header, f)
  {
    hide Blocks, HeaderOk, ByteAt;
    if !header {
      BlocksMoreFuel(z, 0, [], f, g);
    } else if HeaderOk(ByteAt(z, 0), ByteAt(z, 1)) {
      BlocksMoreFuel(z, 16, [], f, g);
    }
  }

  // ----- every step takes a bit

  lemma TokenAdvances(lens: seq<nat>, dists: seq<nat>, z: seq<byte>, at: nat, out: seq<byte>)
    ensures match OneToken(lens, dists, z, at, out)
            case More(at', out') => at < at' && |out| <= |out'|
            case End(at', _) => at < at'
            case _ => true
  {
    hide Peek, LengthBase, LengthExtra, DistBase, DistExtra;
  }

  lemma {:induction false} TokensAdvance(lens: seq<nat>, dists: seq<nat>, z: seq<byte>, at: nat, out: seq<byte>,
                                         fuel: nat)
    ensures var r := CompressedBlock(lens, dists, z, at, out, fuel); r.Done? ==> at <= r.at
    decreases fuel
  {
    hide OneToken;
    TokenAdvances(lens, dists, z, at, out);
    match OneToken(lens, dists, z, at, out)
    case More(at', out') => if fuel > 0 { TokensAdvance(lens, dists, z, at', out', fuel - 1); }
    case _ =>
  }

  lemma {:induction false} LengthsAdvance(cl: seq<nat>, z: seq<byte>, at: nat, total: nat, acc: seq<nat>)
    requires |cl| == 19 && |acc| <= total && forall i :: 0 <= i < |acc| ==> acc[i] <= 15
    ensures var r := ReadLengths(cl, z, at, total, acc); r.Lengths? ==> at <= r.at
    decreases total - |acc|
  {
    hide NextSymbol, Peek;
    if |acc| < total {
      var c := NextSymbol(cl, z, at);
      if 0 <= c < 16 {
        LengthsAdvance(cl, z, at + cl[c], total, acc + [c]);
      } else if c >= 16 && (c != 16 || acc != []) {
        var at' := at + cl[c];
        var n := RepeatBase(c) + Peek(z, at', RepeatBits(c));
        var fill := if c == 16 then acc[|acc| - 1] else 0;
        if total - |acc| >= n { LengthsAdvance(cl, z, at' + RepeatBits(c), total, acc + Fill(fill, n)); }
      }
    }
  }

  lemma BlockAdvances(z: seq<byte>, at: nat, out: seq<byte>, kind: nat, fuel: nat)
    ensures var r := OneBlock(z, at, out, kind, fuel); r.Done? ==> at <= r.at
  {
    hide CompressedBlock, ReadLengths, Peek, FIXED_LENS, FIXED_DISTS, ByteAt, CodeLengthSizes, Accepted;
    if kind == 1 {
      TokensAdvance(FIXED_LENS, FIXED_DISTS, z, at, out, fuel);
    } else if kind == 2 {
      var codes := DynamicCodes(z, at);
      if codes.Codes? {
        CodesAdvance(z, at);
        TokensAdvance(codes.lens, codes.dists, z, codes.at, out, fuel);
      }
    }
  }

  lemma CodesAdvance(z: seq<byte>, at: nat)
    ensures var codes := DynamicCodes(z, at); codes.Codes? ==> at <= codes.at
  {
    hide ReadLengths, Peek, CodeLengthSizes, Accepted;
    PeekBound(z, at + 10, 4);
    assert Pow2(4) == 16;
    var hclen := Peek(z, at + 10, 4) + 4;
    var total := Peek(z, at, 5) + 257 + Peek(z, at + 5, 5) + 1;
    LengthsAdvance(CodeLengthSizes(z, at + 14, hclen), z, at + 14 + 3 * hclen, total, []);
  }

  // ----- behind the end

  /** All bits from `at` on are zero. */
  ghost predicate Over(z: seq<byte>, at: nat) {
    forall i: nat :: at <= i ==> !StreamBit(z, i)
  }

  lemma OverEnd(z: seq<byte>, at: nat)
    requires at >= 8 * |z|
    ensures Over(z, at)
  {
    forall i: nat | at <= i ensures !StreamBit(z, i) { BitZero(i % 8); }
  }

  lemma {:induction false} PeekOver(z: seq<byte>, at: nat, n: nat)
    requires Over(z, at)
    ensures Peek(z, at, n) == 0
    decreases n
  {
    if n > 0 { PeekOver(z, at + 1, n - 1); }
  }

  /** Behind the end a token that is not the last is followed by another. */
  lemma TokenRepeats(lens: seq<nat>, dists: seq<nat>, z: seq<byte>, at: nat, out: seq<byte>)
    requires Over(z, at) && OneToken(lens, dists, z, at, out).More?
    ensures var t := OneToken(lens, dists, z, at, out);
            Over(z, t.at) && OneToken(lens, dists, z, t.at, t.out).More?
  {
    hide Peek, LengthBase, LengthExtra, DistBase, DistExtra, StreamBit, NaiveDecode;
    var t := OneToken(lens, dists, z, at, out);
    TokenAdvances(lens, dists, z, at, out);
    PeekOver(z, at, 15);
    PeekOver(z, t.at, 15);
    var sym := NextSymbol(lens, z, at);
    if sym > END_OF_BLOCK { CopyRepeats(dists, z, at + lens[sym], t.at + lens[sym], out, t.out, sym - 257); }
  }

  lemma CopyRepeats(dists: seq<nat>, z: seq<byte>, a: nat, b: nat, out: seq<byte>, more: seq<byte>, l: nat)
    requires Over(z, a) && a <= b && |out| <= |more| && OneCopy(dists, z, a, out, l).More?
    ensures OneCopy(dists, z, b, more, l).More?
  {
    hide Peek, LengthBase, LengthExtra, DistBase, DistExtra, StreamBit, NaiveDecode;
    var e := LengthExtra(l);
    PeekOver(z, a, e);
    PeekOver(z, b, e);
    PeekOver(z, a + e, 15);
    PeekOver(z, b + e, 15);
    var d := NextSymbol(dists, z, a + e);
    PeekOver(z, a + e + dists[d], DistExtra(d));
    PeekOver(z, b + e + dists[d], DistExtra(d));
  }

  lemma {:induction false} NeverEnds(lens: seq<nat>, dists: seq<nat>, z: seq<byte>, at: nat, out: seq<byte>, fuel: nat)
    requires Over(z, at) && OneToken(lens, dists, z, at, out).More?
    ensures CompressedBlock(lens, dists, z, at, out, fuel).OutOfFuel?
    decreases fuel
  {
    hide OneToken, Over;
    if fuel > 0 {
      TokenRepeats(lens, dists, z, at, out);
      var t := OneToken(lens, dists, z, at, out);
      NeverEnds(lens, dists, z, t.at, t.out, fuel - 1);
    }
  }

  // ----- the decoder without fuel

  /** One unit for each bit that is left, and one more. */
  function Enough(z: seq<byte>, at: nat): nat {
    if at < 8 * |z| then 8 * |z| - at + 1 else 1
  }

  /**
   The tokens of a block up to its end or the first error. `OutOfFuel`, which stands
   for decoding without end, is the result exactly when a literal or a copy is met at
   or behind the end of the stream.
   */
  function AllTokens(lens: seq<nat>, dists: seq<nat>, z: seq<byte>, at: nat, out: seq<byte>): Outcome
    decreases Enough(z, at)
  {
    TokenAdvances(lens, dists, z, at, out);
    match OneToken(lens, dists, z, at, out)
    case More(at', out') => if at >= 8 * |z| then OutOfFuel else AllTokens(lens, dists, z, at', out')
    case End(at', out') => Done(at', out')
    case BadCode => Corrupt
    case Unwritten => Unspecified
  }

  /** With a unit for every bit that is left, and one more, fuel makes no difference. */
  lemma {:induction false} TokensDecide(lens: seq<nat>, dists: seq<nat>, z: seq<byte>, at: nat, out: seq<byte>, f: nat)
    requires f >= Enough(z, at)
    ensures CompressedBlock(lens, dists, z, at, out, f) == AllTokens(lens, dists, z, at, out)
    decreases f
  {
    hide OneToken, Over;
    var t := OneToken(lens, dists, z, at, out);
    TokenAdvances(lens, dists, z, at, out);
    if t.More? {
      if at >= 8 * |z| {
        OverEnd(z, at);
        NeverEnds(lens, dists, z, at, out, f);
      } else {
        TokensDecide(lens, dists, z, t.at, t.out, f - 1);
      }
    }
  }

  function WholeBlock(z: seq<byte>, at: nat, out: seq<byte>, kind: nat): Outcome {
    if kind == 0 then StoredBlock(z, at, out)
    else if kind == 1 then AllTokens(FIXED_LENS, FIXED_DISTS, z, at, out)
    else if kind == 2 then
      var codes := DynamicCodes(z, at);
      if codes.BadCodes? then Corrupt
      else AllTokens(codes.lens, codes.dists, z, codes.at, out)
    else Corrupt
  }

  lemma BlockDecides(z: seq<byte>, at: nat, out: seq<byte>, kind: nat, f: nat)
    requires f >= Enough(z, at)
    ensures OneBlock(z, at, out, kind, f) == WholeBlock(z, at, out, kind)
  {
    hide CompressedBlock, AllTokens, DynamicCodes, FIXED_LENS, FIXED_DISTS, StoredBlock;
    if kind == 1 {
      TokensDecide(FIXED_LENS, FIXED_DISTS, z, at, out, f);
    } else if kind == 2 {
      var codes := DynamicCodes(z, at);
      CodesAdvance(z, at);
      if codes.Codes? { TokensDecide(codes.lens, codes.dists, z, codes.at, out, f); }
    }
  }

  /** A block that is done ends where it starts or further on, and not one that starts behind the end. */
  lemma WholeBlockAdvances(z: seq<byte>, at: nat, out: seq<byte>)
    ensures var r := WholeBlock(z, at + 3, out, Peek(z, at + 1, 2)); r.Done? ==> at + 3 <= r.at && at < 8 * |z|
  {
    hide OneBlock, WholeBlock, Peek;
    var kind := Peek(z, at + 1, 2);
    BlockDecides(z, at + 3, out, kind, Enough(z, at + 3));
    BlockAdvances(z, at + 3, out, kind, Enough(z, at + 3));
    if at >= 8 * |z| { BlocksOver(z, at, out, kind); }
  }

  /** Behind the end there is only a stored block with a wrong length. */
  lemma BlocksOver(z: seq<byte>, at: nat, out: seq<byte>, kind: nat)
    requires at >= 8 * |z| && kind == Peek(z, at + 1, 2)
    ensures WholeBlock(z, at + 3, out, kind) == Corrupt
  {
    hide Peek, Over, AllTokens, DynamicCodes, FIXED_LENS, FIXED_DISTS;
    OverEnd(z, at + 1);
    PeekOver(z, at + 1, 2);
  }

  /** The blocks up to the final one or the first error. */
  function AllBlocks(z: seq<byte>, at: nat, out: seq<byte>): Outcome
    decreases Enough(z, at)
  {
    WholeBlockAdvances(z, at, out);
    var r := WholeBlock(z, at + 3, out, Peek(z, at + 1, 2));
    if !r.Done? || Peek(z, at, 1) == 1 then r
    else AllBlocks(z, r.at, r.out)
  }

  lemma {:induction false} BlocksDecide(z: seq<byte>, at: nat, out: seq<byte>, f: nat)
    requires f >= Enough(z, at)
    ensures Blocks(z, at, out, f) == AllBlocks(z, at, out)
    decreases f
  {
    hide OneBlock, WholeBlock, Peek;
    BlockDecides(z, at + 3, out, Peek(z, at + 1, 2), f);
    WholeBlockAdvances(z, at, out);
    var r := WholeBlock(z, at + 3, out, Peek(z, at + 1, 2));
    if r.Done? && Peek(z, at, 1) != 1 { BlocksDecide(z, r.at, r.out, f - 1); }
  }

  function InflateAll(z: seq<byte>, header: bool): Outcome {
    if !header then AllBlocks(z, 0, [])
    else if !HeaderOk(ByteAt(z, 0), ByteAt(z, 1)) then Corrupt
    else AllBlocks(z, 16, [])
  }

  /** More fuel than the stream has bits gives what the decoder without fuel gives. */
  lemma FuelDecides(z: seq<byte>, header: bool, f: nat)
    requires f > 8 * |z|
    ensures Inflate(z, header, f) == InflateAll(z, header)
  {
    hide Blocks, AllBlocks, HeaderOk, ByteAt;
    BlocksDecide(z, if header then 16 else 0, [], f);
  }

  /** The decoder without fuel has no end exactly when no fuel is enough, and else the outcome of any that is. */
  lemma EndlessIffNoFuelIsEnough(z: seq<byte>, header: bool)
    ensures InflateAll(z, header).OutOfFuel? <==> forall f: nat :: Inflate(z, header, f).OutOfFuel?
    ensures forall f: nat :: !Inflate(z, header, f).OutOfFuel? ==> InflateAll(z, header) == Inflate(z, header, f)
  {
    hide Inflate, InflateAll;
    var most := 8 * |z| + 1;
    FuelDecides(z, header, most);
    forall f: nat | !Inflate(z, header, f).OutOfFuel? ensures InflateAll(z, header) == Inflate(z, header, f) {
      MoreFuel(z, header, f, f + most);
      FuelDecides(z, header, f + most);
    }
  }
}
