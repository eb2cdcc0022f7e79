/**
 The streams of RFC 1950 and RFC 1951, as a writer may put them together: blocks of
 all three kinds, any codes, any way to write their lengths. The decoder accepts
 these streams and no others, and gives what they stand for.
 */
module DeflateFormat {
  import opened Basics
  import opened Bits
  import opened BitStream
  import opened DeflateTables
  import opened Huffman
  import opened InflateSpec
  import opened InflateFuel
  import opened DeflateSpec
  import opened BitWriting

  // ----- bits and code words

  lemma HoldsJoin(z: seq<byte>, at: nat, a: seq<bool>, b: seq<bool>)
    requires Holds(z, at, a) && Holds(z, at + |a|, b)
    ensures Holds(z, at, a + b)
  {
    forall i | 0 <= i < |a + b| ensures StreamBit(z, at + i) == (a + b)[i] {
      if i >= |a| { assert StreamBit(z, at + |a| + (i - |a|)) == b[i - |a|]; }
    }
  }

  /** The bits that a reader of `n` bits sees. */
  lemma {:induction false} PeekStands(z: seq<byte>, at: nat, n: nat)
    ensures Holds(z, at, ToBits(Peek(z, at, n), n)) && Peek(z, at, n) < Pow2(n)
    decreases n
  {
    hide StreamBit;
    PeekBound(z, at, n);
    if n > 0 {
      PeekStands(z, at + 1, n - 1);
      HoldsJoin(z, at, [StreamBit(z, at)], ToBits(Peek(z, at + 1, n - 1), n - 1));
    }
  }

  function Codeword(lens: seq<nat>, i: nat): (r: seq<bool>)
    requires i < |lens|
    ensures |r| == lens[i]
  {
    CodeBits(Code(lens, i), lens[i])
  }

  lemma CodewordRead(lens: seq<nat>, z: seq<byte>, at: nat, i: nat)
    requires ValidLens(lens) && Accepted(lens) && i < |lens| && lens[i] > 0 && Holds(z, at, Codeword(lens, i))
    ensures NextSymbol(lens, z, at) == i
  {
    hide Code, EndCode, Holds, NextSymbol;
    CodeInRange(lens, i);
    assert Fits(lens, lens[i]);
    CodeDecodes(lens, z, at, i);
  }

  lemma CodewordStands(lens: seq<nat>, z: seq<byte>, at: nat)
    requires ValidLens(lens) && NextSymbol(lens, z, at) >= 0
    ensures var i := NextSymbol(lens, z, at); lens[i] > 0 && Holds(z, at, Codeword(lens, i))
  {
    hide Code, Rev, Holds, Peek;
    var i := NextSymbol(lens, z, at);
    var n := lens[i];
    PeekStands(z, at, n);
    PeekRev(z, at, 15, n, n);
    RevRev(Peek(z, at, n), n);
  }

  // ----- lengths and distances

  /** How many extra bits a length symbol has; `l` counts from symbol 257 on. */
  function LengthBitsOf(l: nat): nat {
    if l < 8 || l >= 28 then 0 else (l - 4) / 4
  }

  /** The length for a symbol and the value of its extra bits; the reader takes two symbols more than the format has. */
  function LengthOf(l: nat, e: nat): nat {
    if l < 8 then l + 3
    else if l < 28 then 3 + (4 + l % 4) * Pow2(LengthBitsOf(l)) + e
    else if l == 28 then 258
    else 0
  }

  function DistBitsOf(d: nat): nat {
    if d < 4 || d >= 30 then 0 else (d - 2) / 2
  }

  function DistOf(d: nat, e: nat): nat {
    if d < 4 then d + 1 else if d < 30 then 1 + (2 + d % 2) * Pow2(DistBitsOf(d)) + e else 0
  }

  /** The tables of section 3.2.5 of RFC 1951 by rule. */
  lemma LengthTable(l: nat, e: nat)
    requires e < Pow2(LengthBitsOf(l))
    ensures LengthExtra(l) == LengthBitsOf(l) && LengthBase(l) + e == LengthOf(l, e)
  {
    var b := LengthBitsOf(l);
    ExtraPow2(b);
    hide Pow2;
    if b == 0 {} else if b == 1 {} else if b == 2 {} else if b == 3 {} else if b == 4 {} else {}
  }

  lemma DistTable(d: nat, e: nat)
    requires e < Pow2(DistBitsOf(d))
    ensures DistExtra(d) == DistBitsOf(d) && DistBase(d) + e == DistOf(d, e)
  {
    var b := DistBitsOf(d);
    ExtraPow2(b);
    hide Pow2;
    if b < 4 {
      if b == 0 {} else if b == 1 {} else if b == 2 {} else {}
    } else if b < 8 {
      if b == 4 {} else if b == 5 {} else if b == 6 {} else {}
    } else if b < 11 {
      if b == 8 {} else if b == 9 {} else {}
    } else {
      if b == 11 {} else if b == 12 {} else {}
    }
  }

  // ----- the contents of a compressed block

  /** A literal, or a copy with its two symbols and their extra bits. */
  datatype Item = Lit(b: byte) | Copied(l: nat, le: nat, d: nat, de: nat)

  predicate HasCode(lens: seq<nat>, i: nat) {
    i < |lens| && lens[i] > 0
  }

  /** What can be written with these codes when `n` bytes are there already. */
  predicate ItemOk(lens: seq<nat>, dists: seq<nat>, it: Item, n: nat) {
    match it
    case Lit(b) => HasCode(lens, b)
    case Copied(l, le, d, de) =>
      && HasCode(lens, 257 + l) && le < Pow2(LengthBitsOf(l)) && HasCode(dists, d) && de < Pow2(DistBitsOf(d))
      && DistOf(d, de) <= n && (LengthOf(l, le) > 0 ==> DistOf(d, de) > 0)
  }

  function ItemBits(lens: seq<nat>, dists: seq<nat>, it: Item): seq<bool>
    requires it.Lit? ==> it.b < |lens|
    requires it.Copied? ==> 257 + it.l < |lens| && it.d < |dists|
  {
    match it
    case Lit(b) => Codeword(lens, b)
    case Copied(l, le, d, de) =>
      Codeword(lens, 257 + l) + ToBits(le, LengthBitsOf(l)) + (Codeword(dists, d) + ToBits(de, DistBitsOf(d)))
  }

  function ItemApplied(it: Item, out: seq<byte>): seq<byte>
    requires it.Copied? ==> DistOf(it.d, it.de) <= |out| && (LengthOf(it.l, it.le) > 0 ==> DistOf(it.d, it.de) > 0)
  {
    match it
    case Lit(b) => out + [b]
    case Copied(l, le, d, de) => if LengthOf(l, le) == 0 then out else Copy(out, LengthOf(l, le), DistOf(d, de))
  }

  /** Every byte of a copy is the one `dist` before it. */
  lemma {:induction false} CopyIsPeriodic(out: seq<byte>, len: nat, dist: nat)
    requires 1 <= dist <= |out|
    ensures var r := Copy(out, len, dist);
            |r| == |out| + len && r[..|out|] == out && forall k :: |out| <= k < |r| ==> r[k] == r[k - dist]
    decreases len
  {
    if len > 0 {
      var next := out + [out[|out| - dist]];
      CopyIsPeriodic(next, len - 1, dist);
      var r := Copy(out, len, dist);
      assert r[..|next|] == next;
      assert r[|out|] == next[|out|] && r[|out| - dist] == next[|out| - dist];
      assert r[..|out|] == next[..|out|];
    }
  }

  lemma LengthRead(lens: seq<nat>, z: seq<byte>, at: nat, l: nat, le: nat)
    requires ValidLens(lens) && Accepted(lens) && HasCode(lens, 257 + l) && le < Pow2(LengthBitsOf(l))
    requires Holds(z, at, Codeword(lens, 257 + l) + ToBits(le, LengthBitsOf(l)))
    ensures NextSymbol(lens, z, at) == 257 + l
    ensures LengthAt(z, at + lens[257 + l], l) == (at + lens[257 + l] + LengthBitsOf(l), LengthOf(l, le))
  {
    hide Accepted, NextSymbol, Codeword, ToBits, Holds, LengthBase, LengthExtra, LengthOf, LengthBitsOf, Peek;
    HoldsSplit(z, at, Codeword(lens, 257 + l), ToBits(le, LengthBitsOf(l)));
    CodewordRead(lens, z, at, 257 + l);
    PeekHolds(z, at + lens[257 + l], le, LengthBitsOf(l));
    LengthTable(l, le);
  }

  lemma DistRead(dists: seq<nat>, z: seq<byte>, at: nat, d: nat, de: nat)
    requires ValidLens(dists) && Accepted(dists) && HasCode(dists, d) && de < Pow2(DistBitsOf(d))
    requires Holds(z, at, Codeword(dists, d) + ToBits(de, DistBitsOf(d)))
    ensures NextSymbol(dists, z, at) == d
    ensures DistAt(z, at + dists[d], d) == (at + dists[d] + DistBitsOf(d), DistOf(d, de))
  {
    hide Accepted, NextSymbol, Codeword, ToBits, Holds, DistBase, DistExtra, DistOf, DistBitsOf, Peek;
    HoldsSplit(z, at, Codeword(dists, d), ToBits(de, DistBitsOf(d)));
    CodewordRead(dists, z, at, d);
    PeekHolds(z, at + dists[d], de, DistBitsOf(d));
    DistTable(d, de);
  }

  lemma ItemRead(lens: seq<nat>, dists: seq<nat>, z: seq<byte>, at: nat, out: seq<byte>, it: Item)
    requires ValidLens(lens) && Accepted(lens) && ValidLens(dists) && Accepted(dists)
    requires ItemOk(lens, dists, it, |out|) && Holds(z, at, ItemBits(lens, dists, it))
    ensures OneToken(lens, dists, z, at, out) == More(at + |ItemBits(lens, dists, it)|, ItemApplied(it, out))
  {
    hide Accepted, ValidLens, NextSymbol, Codeword, ToBits, Holds, LengthAt, DistAt, LengthOf, DistOf, LengthBitsOf,
         DistBitsOf, Copy;
    match it {
      case Lit(b) => CodewordRead(lens, z, at, b);
      case Copied(l, le, d, de) =>
        var first := Codeword(lens, 257 + l) + ToBits(le, LengthBitsOf(l));
        HoldsSplit(z, at, first, Codeword(dists, d) + ToBits(de, DistBitsOf(d)));
        LengthRead(lens, z, at, l, le);
        DistRead(dists, z, at + |first|, d, de);
    }
  }

  /** Whatever is read as a token is the bits of an item. */
  lemma TokenStands(lens: seq<nat>, dists: seq<nat>, z: seq<byte>, at: nat, out: seq<byte>) returns (it: Item)
    requires ValidLens(lens) && ValidLens(dists) && OneToken(lens, dists, z, at, out).More?
    ensures ItemOk(lens, dists, it, |out|) && Holds(z, at, ItemBits(lens, dists, it))
    ensures OneToken(lens, dists, z, at, out) == More(at + |ItemBits(lens, dists, it)|, ItemApplied(it, out))
  {
    hide ValidLens, NextSymbol, Codeword, ToBits, Holds, Peek, Copy, LengthOf, DistOf, LengthBitsOf, DistBitsOf,
         LengthAt, DistAt;
    var sym := NextSymbol(lens, z, at);
    CodewordStands(lens, z, at);
    if sym < 256 {
      it := Lit(sym);
    } else {
      var l := sym - 257;
      var le := LengthStands(lens, z, at);
      var b := at + lens[sym] + LengthBitsOf(l);
      var d := NextSymbol(dists, z, b);
      var de := DistStands(dists, z, b);
      it := Copied(l, le, d, de);
      HoldsJoin(z, at, Codeword(lens, sym) + ToBits(le, LengthBitsOf(l)),
                Codeword(dists, d) + ToBits(de, DistBitsOf(d)));
    }
  }

  lemma LengthStands(lens: seq<nat>, z: seq<byte>, at: nat) returns (le: nat)
    requires ValidLens(lens) && NextSymbol(lens, z, at) >= 257
    ensures var sym := NextSymbol(lens, z, at);
            var l := sym - 257;
            && HasCode(lens, sym) && le < Pow2(LengthBitsOf(l))
            && LengthAt(z, at + lens[sym], l) == (at + lens[sym] + LengthBitsOf(l), LengthOf(l, le))
            && Holds(z, at, Codeword(lens, sym) + ToBits(le, LengthBitsOf(l)))
  {
    hide ValidLens, NextSymbol, Codeword, ToBits, Holds, Peek, LengthOf, LengthBitsOf, LengthBase, LengthExtra;
    var sym := NextSymbol(lens, z, at);
    CodewordStands(lens, z, at);
    le := FieldStands(z, at + lens[sym], LengthBitsOf(sym - 257));
    LengthTable(sym - 257, le);
    HoldsJoin(z, at, Codeword(lens, sym), ToBits(le, LengthBitsOf(sym - 257)));
  }

  lemma DistStands(dists: seq<nat>, z: seq<byte>, at: nat) returns (de: nat)
    requires ValidLens(dists) && NextSymbol(dists, z, at) >= 0
    ensures var d := NextSymbol(dists, z, at);
            && HasCode(dists, d) && de < Pow2(DistBitsOf(d))
            && DistAt(z, at + dists[d], d) == (at + dists[d] + DistBitsOf(d), DistOf(d, de))
            && Holds(z, at, Codeword(dists, d) + ToBits(de, DistBitsOf(d)))
  {
    hide ValidLens, NextSymbol, Codeword, ToBits, Holds, Peek, DistOf, DistBitsOf, DistBase, DistExtra;
    var d := NextSymbol(dists, z, at);
    CodewordStands(dists, z, at);
    de := FieldStands(z, at + dists[d], DistBitsOf(d));
    DistTable(d, de);
    HoldsJoin(z, at, Codeword(dists, d), ToBits(de, DistBitsOf(d)));
  }

  lemma FieldStands(z: seq<byte>, at: nat, n: nat) returns (v: nat)
    ensures v == Peek(z, at, n) < Pow2(n) && Holds(z, at, ToBits(v, n))
  {
    hide Peek, Holds, ToBits;
    PeekStands(z, at, n);
    v := Peek(z, at, n);
  }

  /** Two codes that a block can be written with. */
  predicate CodesOk(lens: seq<nat>, dists: seq<nat>) {
    ValidLens(lens) && Accepted(lens) && ValidLens(dists) && Accepted(dists)
  }

  predicate ItemsOk(lens: seq<nat>, dists: seq<nat>, items: seq<Item>, out: seq<byte>) {
    items == []
    || (ItemOk(lens, dists, items[0], |out|) && ItemsOk(lens, dists, items[1..], ItemApplied(items[0], out)))
  }

  /** The items and the end-of-block symbol. */
  function ItemsBits(lens: seq<nat>, dists: seq<nat>, items: seq<Item>, out: seq<byte>): seq<bool>
    requires ItemsOk(lens, dists, items, out) && HasCode(lens, 256)
  {
    if items == [] then Codeword(lens, 256)
    else
      ItemBits(lens, dists, items[0]) + ItemsBits(lens, dists, items[1..], ItemApplied(items[0], out))
  }

  /** What the items make of `out`. */
  function ItemsApplied(lens: seq<nat>, dists: seq<nat>, items: seq<Item>, out: seq<byte>): seq<byte>
    requires ItemsOk(lens, dists, items, out)
  {
    if items == [] then out else ItemsApplied(lens, dists, items[1..], ItemApplied(items[0], out))
  }

  lemma {:induction false} ItemsRead(lens: seq<nat>, dists: seq<nat>, z: seq<byte>, at: nat, out: seq<byte>,
                                     items: seq<Item>, fuel: nat)
    requires CodesOk(lens, dists) && HasCode(lens, 256) && ItemsOk(lens, dists, items, out) && fuel > |items|
    requires Holds(z, at, ItemsBits(lens, dists, items, out))
    ensures CompressedBlock(lens, dists, z, at, out, fuel)
         == Done(at + |ItemsBits(lens, dists, items, out)|, ItemsApplied(lens, dists, items, out))
    decreases |items|
  {
    hide OneCopy, NextSymbol, ItemBits, ItemApplied, Codeword, Holds, Accepted, ValidLens;
    if items == [] {
      CodewordRead(lens, z, at, 256);
    } else {
      var first, next := ItemBits(lens, dists, items[0]), ItemApplied(items[0], out);
      HoldsSplit(z, at, first, ItemsBits(lens, dists, items[1..], next));
      ItemRead(lens, dists, z, at, out, items[0]);
      ItemsRead(lens, dists, z, at + |first|, next, items[1..], fuel - 1);
    }
  }

  lemma EndStands(lens: seq<nat>, dists: seq<nat>, z: seq<byte>, at: nat, out: seq<byte>)
    requires ValidLens(lens) && OneToken(lens, dists, z, at, out).End?
    ensures HasCode(lens, 256) && Holds(z, at, Codeword(lens, 256))
    ensures OneToken(lens, dists, z, at, out) == End(at + lens[256], out)
  {
    hide NextSymbol, Codeword, Holds, Peek;
    CodewordStands(lens, z, at);
  }

  lemma {:induction false} BlockStands(lens: seq<nat>, dists: seq<nat>, z: seq<byte>, at: nat, out: seq<byte>,
                                       fuel: nat) returns (items: seq<Item>)
    requires CodesOk(lens, dists) && CompressedBlock(lens, dists, z, at, out, fuel).Done?
    ensures HasCode(lens, 256) && ItemsOk(lens, dists, items, out)
    ensures Holds(z, at, ItemsBits(lens, dists, items, out))
    ensures CompressedBlock(lens, dists, z, at, out, fuel)
         == Done(at + |ItemsBits(lens, dists, items, out)|, ItemsApplied(lens, dists, items, out))
    decreases fuel
  {
    hide OneCopy, NextSymbol, ItemBits, ItemApplied, Codeword, Holds, Accepted, ValidLens;
    var t := OneToken(lens, dists, z, at, out);
    if t.End? {
      items := [];
      EndStands(lens, dists, z, at, out);
    } else {
      var it := TokenStands(lens, dists, z, at, out);
      var rest := BlockStands(lens, dists, z, t.at, t.out, fuel - 1);
      items := [it] + rest;
      assert items[1..] == rest;
      HoldsJoin(z, at, ItemBits(lens, dists, it), ItemsBits(lens, dists, rest, t.out));
    }
  }

  // ----- the code lengths of a dynamic block

  /** A code length, or a repetition with the number of its values. */
  datatype LenItem = One(v: nat) | Again(n: nat) | Zeros(n: nat) | ManyZeros(n: nat)

  /** What can be written with the code `cl` behind the lengths `acc`. */
  predicate LenItemOk(cl: seq<nat>, it: LenItem, acc: seq<nat>) {
    match it
    case One(v) => v <= 15 && HasCode(cl, v)
    case Again(n) => 3 <= n <= 6 && acc != [] && HasCode(cl, 16)
    case Zeros(n) => 3 <= n <= 10 && HasCode(cl, 17)
    case ManyZeros(n) => 11 <= n <= 138 && HasCode(cl, 18)
  }

  function LenItemBits(cl: seq<nat>, it: LenItem): seq<bool>
    requires |cl| == 19 && (it.One? ==> it.v < 19)
  {
    match it
    case One(v) => Codeword(cl, v)
    case Again(n) => Codeword(cl, 16) + ToBits(if n < 3 then 0 else n - 3, 2)
    case Zeros(n) => Codeword(cl, 17) + ToBits(if n < 3 then 0 else n - 3, 3)
    case ManyZeros(n) => Codeword(cl, 18) + ToBits(if n < 11 then 0 else n - 11, 7)
  }

  function LenItemApplied(it: LenItem, acc: seq<nat>): seq<nat>
    requires it.Again? ==> acc != []
  {
    match it
    case One(v) => acc + [v]
    case Again(n) => acc + Fill(acc[|acc| - 1], n)
    case Zeros(n) => acc + Fill(0, n)
    case ManyZeros(n) => acc + Fill(0, n)
  }

  /** The items write `lens` behind `acc`. */
  predicate Writes(cl: seq<nat>, items: seq<LenItem>, acc: seq<nat>, lens: seq<nat>) {
    if items == [] then acc == lens
    else LenItemOk(cl, items[0], acc) && Writes(cl, items[1..], LenItemApplied(items[0], acc), lens)
  }

  function LenItemsBits(cl: seq<nat>, items: seq<LenItem>, acc: seq<nat>, lens: seq<nat>): seq<bool>
    requires |cl| == 19 && Writes(cl, items, acc, lens)
  {
    if items == [] then []
    else LenItemBits(cl, items[0]) + LenItemsBits(cl, items[1..], LenItemApplied(items[0], acc), lens)
  }

  predicate AtMost15(lens: seq<nat>) {
    forall i :: 0 <= i < |lens| ==> lens[i] <= 15
  }

  lemma LenItemGrows(it: LenItem, cl: seq<nat>, acc: seq<nat>)
    requires LenItemOk(cl, it, acc) && AtMost15(acc)
    ensures |LenItemApplied(it, acc)| > |acc| && AtMost15(LenItemApplied(it, acc))
  {
  }

  lemma {:induction false} WritesGrow(cl: seq<nat>, items: seq<LenItem>, acc: seq<nat>, lens: seq<nat>)
    requires Writes(cl, items, acc, lens) && AtMost15(acc)
    ensures |acc| <= |lens| && AtMost15(lens) && (|acc| == |lens| ==> items == [] && acc == lens)
    decreases |items|
  {
    hide LenItemApplied;
    if items != [] {
      LenItemGrows(items[0], cl, acc);
      WritesGrow(cl, items[1..], LenItemApplied(items[0], acc), lens);
    }
  }

  /** One turn of the reader for an item. */
  lemma LenItemRead(cl: seq<nat>, z: seq<byte>, at: nat, acc: seq<nat>, total: nat, it: LenItem)
    requires |cl| == 19 && ValidLens(cl) && Accepted(cl) && LenItemOk(cl, it, acc) && AtMost15(acc)
    requires |acc| < total && |LenItemApplied(it, acc)| <= total && Holds(z, at, LenItemBits(cl, it))
    ensures AtMost15(LenItemApplied(it, acc))
    ensures ReadLengths(cl, z, at, total, acc)
         == ReadLengths(cl, z, at + |LenItemBits(cl, it)|, total, LenItemApplied(it, acc))
  {
    hide Accepted, ValidLens, NextSymbol, Codeword, Holds, ToBits, Peek;
    LenItemGrows(it, cl, acc);
    var three := 3;
    assert Pow2(2) == 4 && Pow2(three) == 8;
    ExtraPow2(7);
    match it {
      case One(v) => CodewordRead(cl, z, at, v);
      case Again(n) => FieldRead(cl, z, at, 16, n - 3, 2);
      case Zeros(n) => FieldRead(cl, z, at, 17, n - 3, 3);
      case ManyZeros(n) => FieldRead(cl, z, at, 18, n - 11, 7);
    }
  }

  lemma FieldRead(cl: seq<nat>, z: seq<byte>, at: nat, c: nat, v: nat, n: nat)
    requires ValidLens(cl) && Accepted(cl) && HasCode(cl, c) && v < Pow2(n)
    requires Holds(z, at, Codeword(cl, c) + ToBits(v, n))
    ensures NextSymbol(cl, z, at) == c && Peek(z, at + cl[c], n) == v
  {
    hide Accepted, ValidLens, NextSymbol, Codeword, Holds, ToBits, Peek;
    HoldsSplit(z, at, Codeword(cl, c), ToBits(v, n));
    CodewordRead(cl, z, at, c);
    PeekHolds(z, at + cl[c], v, n);
  }

  /** The head of a list of items, and the rest. */
  lemma LengthsAtHead(cl: seq<nat>, z: seq<byte>, at: nat, acc: seq<nat>, items: seq<LenItem>, lens: seq<nat>, end: nat)
    returns (mid: nat, next: seq<nat>)
    requires items != [] && LengthsAt(cl, z, at, acc, items, lens, end) && AtMost15(acc)
    ensures LenItemAt(cl, z, at, acc, items[0], mid, next) && LengthsAt(cl, z, mid, next, items[1..], lens, end)
    ensures |acc| < |next| <= |lens| && AtMost15(next)
  {
    hide Holds, LenItemApplied, LenItemBits, AtMost15;
    next := LenItemApplied(items[0], acc);
    mid := at + |LenItemBits(cl, items[0])|;
    LenItemGrows(items[0], cl, acc);
    WritesGrow(cl, items[1..], next, lens);
    HoldsSplit(z, at, LenItemBits(cl, items[0]), LenItemsBits(cl, items[1..], next, lens));
  }

  lemma {:induction false} LengthsRead(cl: seq<nat>, z: seq<byte>, at: nat, acc: seq<nat>, items: seq<LenItem>,
                                       lens: seq<nat>, end: nat)
    requires |cl| == 19 && ValidLens(cl) && Accepted(cl) && AtMost15(acc) && |acc| <= |lens|
    requires LengthsAt(cl, z, at, acc, items, lens, end)
    ensures ReadLengths(cl, z, at, |lens|, acc) == Lengths(end, lens)
    decreases |items|
  {
    if items == [] {
      AllRead(cl, z, at, acc);
    } else {
      hide ReadLengths, Accepted, ValidLens, LengthsAt, LenItemAt, AtMost15;
      var mid, next := LengthsAtHead(cl, z, at, acc, items, lens, end);
      OneLenItem(cl, z, at, acc, |lens|, items[0], mid, next);
      LengthsRead(cl, z, mid, next, items[1..], lens, end);
    }
  }

  lemma OneLenItem(cl: seq<nat>, z: seq<byte>, at: nat, acc: seq<nat>, total: nat, it: LenItem, mid: nat,
                   next: seq<nat>)
    requires |cl| == 19 && ValidLens(cl) && Accepted(cl) && AtMost15(acc) && AtMost15(next)
    requires LenItemAt(cl, z, at, acc, it, mid, next) && |acc| < total && |next| <= total
    ensures ReadLengths(cl, z, at, total, acc) == ReadLengths(cl, z, mid, total, next)
  {
    hide ReadLengths, Accepted, ValidLens, LenItemOk, LenItemBits, LenItemApplied, Holds;
    LenItemRead(cl, z, at, acc, total, it);
  }

  lemma AllRead(cl: seq<nat>, z: seq<byte>, at: nat, acc: seq<nat>)
    requires |cl| == 19 && AtMost15(acc)
    ensures ReadLengths(cl, z, at, |acc|, acc) == Lengths(at, acc)
  {
  }

  /** The item stands from `at` to `mid` and makes `next` of the lengths `acc`. */
  ghost predicate LenItemAt(cl: seq<nat>, z: seq<byte>, at: nat, acc: seq<nat>, it: LenItem, mid: nat, next: seq<nat>) {
    && |cl| == 19 && LenItemOk(cl, it, acc) && next == LenItemApplied(it, acc)
    && Holds(z, at, LenItemBits(cl, it)) && mid == at + |LenItemBits(cl, it)|
  }

  /** Whatever one turn of the reader reads is the bits of an item. */
  lemma LenItemStands(cl: seq<nat>, z: seq<byte>, at: nat, total: nat, acc: seq<nat>)
    returns (it: LenItem, mid: nat, next: seq<nat>)
    requires |cl| == 19 && ValidLens(cl) && |acc| < total && AtMost15(acc)
    requires ReadLengths(cl, z, at, total, acc).Lengths?
    ensures LenItemAt(cl, z, at, acc, it, mid, next) && |acc| < |next| <= total && AtMost15(next)
    ensures ReadLengths(cl, z, at, total, acc) == ReadLengths(cl, z, mid, total, next)
  {
    hide ValidLens, NextSymbol, Codeword, Holds, ToBits, Peek;
    var c := NextSymbol(cl, z, at);
    CodewordStands(cl, z, at);
    it := One(c);
    if c >= 16 {
      var v := FieldStands(z, at + cl[c], RepeatBits(c));
      HoldsJoin(z, at, Codeword(cl, c), ToBits(v, RepeatBits(c)));
      ExtraPow2(RepeatBits(c));
      it := if c == 16 then Again(v + 3) else if c == 17 then Zeros(v + 3) else ManyZeros(v + 11);
    }
    mid, next := at + |LenItemBits(cl, it)|, LenItemApplied(it, acc);
  }

  /** The items stand at `at`, write `lens` behind `acc`, and end at `end`. */
  ghost predicate LengthsAt(cl: seq<nat>, z: seq<byte>, at: nat, acc: seq<nat>, items: seq<LenItem>, lens: seq<nat>,
                            end: nat) {
    && |cl| == 19 && Writes(cl, items, acc, lens)
    && Holds(z, at, LenItemsBits(cl, items, acc, lens)) && end == at + |LenItemsBits(cl, items, acc, lens)|
  }

  lemma LengthsAtNone(cl: seq<nat>, z: seq<byte>, at: nat, acc: seq<nat>)
    requires |cl| == 19
    ensures LengthsAt(cl, z, at, acc, [], acc, at)
  {
  }

  lemma LengthsAtCons(cl: seq<nat>, z: seq<byte>, at: nat, acc: seq<nat>, it: LenItem, mid: nat, next: seq<nat>,
                      rest: seq<LenItem>, lens: seq<nat>, end: nat)
    requires LenItemAt(cl, z, at, acc, it, mid, next) && LengthsAt(cl, z, mid, next, rest, lens, end)
    ensures LengthsAt(cl, z, at, acc, [it] + rest, lens, end)
  {
    hide Holds, LenItemApplied, LenItemBits;
    var items := [it] + rest;
    assert items[0] == it && items[1..] == rest;
    HoldsJoin(z, at, LenItemBits(cl, it), LenItemsBits(cl, rest, next, lens));
  }

  /** Whatever lengths are read were written by some items. */
  lemma {:induction false} LengthsStand(cl: seq<nat>, z: seq<byte>, at: nat, total: nat, acc: seq<nat>)
    returns (items: seq<LenItem>)
    requires |cl| == 19 && ValidLens(cl) && |acc| <= total && AtMost15(acc)
    requires ReadLengths(cl, z, at, total, acc).Lengths?
    ensures var r := ReadLengths(cl, z, at, total, acc); LengthsAt(cl, z, at, acc, items, r.lens, r.at)
    decreases total - |acc|
  {
    var r := ReadLengths(cl, z, at, total, acc);
    hide ReadLengths, ValidLens, AtMost15, LengthsAt, LenItemAt;
    if |acc| == total {
      items := [];
      AllRead(cl, z, at, acc);
      LengthsAtNone(cl, z, at, acc);
    } else {
      var it, mid, next := LenItemStands(cl, z, at, total, acc);
      var rest := LengthsStand(cl, z, mid, total, next);
      items := [it] + rest;
      LengthsAtCons(cl, z, at, acc, it, mid, next, rest, r.lens, r.at);
    }
  }

  // ----- the header of a dynamic block

  /** Whose length the `i`th of the lengths of the code-length code is. */
  function Place(i: nat): (c: nat)
    requires i < 19
    ensures c < 19
  {
    if i < 3 then 16 + i else if i == 3 then 0 else if i % 2 == 0 then 8 + (i - 4) / 2 else 8 - (i - 3) / 2
  }

  /** And where the length of `c` is. */
  function PlaceOf(c: nat): (i: nat)
    requires c < 19
    ensures i < 19 && Place(i) == c
  {
    if c > 15 then c - 16 else if c == 0 then 3 else if c >= 8 then 4 + 2 * (c - 8) else 3 + 2 * (8 - c)
  }

  lemma PlaceOnce(i: nat)
    requires i < 19
    ensures PlaceOf(Place(i)) == i && DEZIGZAG[i] == Place(i)
  {
  }

  lemma {:induction false} SizesRead(z: seq<byte>, at: nat, n: nat, c: nat)
    requires n <= 19 && c < 19
    ensures CodeLengthSizes(z, at, n)[c] == if PlaceOf(c) < n then Peek(z, at + 3 * PlaceOf(c), 3) else 0
    decreases n
  {
    hide Peek, Place, PlaceOf;
    if n > 0 {
      PlaceOnce(n - 1);
      SizesRead(z, at, n - 1, c);
      assert DEZIGZAG[n - 1] == c ==> n - 1 == PlaceOf(c);
      assert DEZIGZAG[n - 1] != c ==> n - 1 != PlaceOf(c);
    }
  }

  /** The code-length code, its first `nc` lengths, and the items that write the lengths of the two codes. */
  datatype Header = Header(nc: nat, cl: seq<nat>, items: seq<LenItem>)

  predicate SizesOk(cl: seq<nat>, nc: nat) {
    && 4 <= nc <= 19 && |cl| == 19 && (forall c :: 0 <= c < 19 ==> cl[c] < 8)
    && forall c :: 0 <= c < 19 && PlaceOf(c) >= nc ==> cl[c] == 0
  }

  ghost predicate DynamicOk(h: Header, lens: seq<nat>, dists: seq<nat>) {
    && SizesOk(h.cl, h.nc) && Accepted(h.cl)
    && 257 <= |lens| <= 288 && 1 <= |dists| <= 32 && CodesOk(lens, dists)
    && Writes(h.cl, h.items, [], lens + dists)
  }

  /** The first `n` lengths of the code-length code. */
  function SizesBits(cl: seq<nat>, n: nat): (r: seq<bool>)
    requires n <= 19 == |cl|
    ensures |r| == 3 * n
  {
    if n == 0 then [] else SizesBits(cl, n - 1) + ToBits(cl[Place(n - 1)], 3)
  }

  function CountsBits(h: Header, lens: seq<nat>, dists: seq<nat>): (r: seq<bool>)
    requires |lens| >= 257 && |dists| >= 1 && h.nc >= 4
    ensures |r| == 14
  {
    ToBits(|lens| - 257, 5) + ToBits(|dists| - 1, 5) + ToBits(h.nc - 4, 4)
  }

  ghost function DynamicBits(h: Header, lens: seq<nat>, dists: seq<nat>): seq<bool>
    requires DynamicOk(h, lens, dists)
  {
    CountsBits(h, lens, dists) + SizesBits(h.cl, h.nc) + LenItemsBits(h.cl, h.items, [], lens + dists)
  }

  lemma {:induction false} SizesBitsRead(z: seq<byte>, at: nat, cl: seq<nat>, n: nat, i: nat)
    requires i < n <= 19 == |cl| && (forall c :: 0 <= c < 19 ==> cl[c] < 8) && Holds(z, at, SizesBits(cl, n))
    ensures Peek(z, at + 3 * i, 3) == cl[Place(i)]
    decreases n
  {
    hide Peek, Place, Holds, ToBits;
    HoldsSplit(z, at, SizesBits(cl, n - 1), ToBits(cl[Place(n - 1)], 3));
    if i == n - 1 {
      assert Pow2(3) == 8;
      PeekHolds(z, at + 3 * i, cl[Place(i)], 3);
    } else {
      SizesBitsRead(z, at, cl, n - 1, i);
    }
  }

  lemma ReadSizes(z: seq<byte>, at: nat, cl: seq<nat>, nc: nat)
    requires SizesOk(cl, nc) && Holds(z, at, SizesBits(cl, nc))
    ensures CodeLengthSizes(z, at, nc) == cl
  {
    hide Peek, Place, PlaceOf, Holds, SizesBits, CodeLengthSizes;
    var r := CodeLengthSizes(z, at, nc);
    forall c | 0 <= c < 19 ensures r[c] == cl[c] {
      SizesRead(z, at, nc, c);
      if PlaceOf(c) < nc { SizesBitsRead(z, at, cl, nc, PlaceOf(c)); }
    }
  }

  lemma {:induction false} SizesStand(z: seq<byte>, at: nat, nc: nat, n: nat)
    requires n <= nc <= 19
    ensures Holds(z, at, SizesBits(CodeLengthSizes(z, at, nc), n))
    decreases n
  {
    hide Peek, Place, PlaceOf, Holds, ToBits, CodeLengthSizes;
    var cl := CodeLengthSizes(z, at, nc);
    if n > 0 {
      SizesStand(z, at, nc, n - 1);
      PlaceOnce(n - 1);
      SizesRead(z, at, nc, Place(n - 1));
      PeekStands(z, at + 3 * (n - 1), 3);
      HoldsJoin(z, at, SizesBits(cl, n - 1), ToBits(cl[Place(n - 1)], 3));
    } else {
      NoBitsHeld(z, at);
    }
  }

  lemma NoBitsHeld(z: seq<byte>, at: nat)
    ensures Holds(z, at, [])
  {
  }

  lemma CountsRead(z: seq<byte>, at: nat, h: Header, lens: seq<nat>, dists: seq<nat>)
    requires 257 <= |lens| <= 288 && 1 <= |dists| <= 32 && 4 <= h.nc <= 19
    requires Holds(z, at, CountsBits(h, lens, dists))
    ensures Peek(z, at, 5) + 257 == |lens| && Peek(z, at + 5, 5) + 1 == |dists| && Peek(z, at + 10, 4) + 4 == h.nc
  {
    hide Peek, Holds, ToBits;
    assert Pow2(5) == 32 && Pow2(4) == 16;
    HoldsSplit(z, at, ToBits(|lens| - 257, 5) + ToBits(|dists| - 1, 5), ToBits(h.nc - 4, 4));
    HoldsSplit(z, at, ToBits(|lens| - 257, 5), ToBits(|dists| - 1, 5));
    PeekHolds(z, at, |lens| - 257, 5);
    PeekHolds(z, at + 5, |dists| - 1, 5);
    PeekHolds(z, at + 10, h.nc - 4, 4);
  }

  /** However a header is written, the reader finds the two codes and the end of the header. */
  lemma DynamicRead(z: seq<byte>, at: nat, h: Header, lens: seq<nat>, dists: seq<nat>)
    requires DynamicOk(h, lens, dists) && Holds(z, at, DynamicBits(h, lens, dists))
    ensures DynamicCodes(z, at) == Codes(at + |DynamicBits(h, lens, dists)|, lens, dists)
  {
    hide Peek, Holds, Accepted, SizesBits, CountsBits, CodeLengthSizes, ReadLengths, Writes;
    var counts, sizes := CountsBits(h, lens, dists), SizesBits(h.cl, h.nc);
    var rest := LenItemsBits(h.cl, h.items, [], lens + dists);
    HoldsSplit(z, at, counts + sizes, rest);
    HoldsSplit(z, at, counts, sizes);
    CountsRead(z, at, h, lens, dists);
    ReadSizes(z, at + 14, h.cl, h.nc);
    var a := at + 14 + 3 * h.nc;
    assert LengthsAt(h.cl, z, a, [], h.items, lens + dists, a + |rest|);
    LengthsRead(h.cl, z, a, [], h.items, lens + dists, a + |rest|);
    assert (lens + dists)[..|lens|] == lens && (lens + dists)[|lens|..] == dists;
  }

  /** Whatever header is accepted was written so. */
  lemma DynamicStands(z: seq<byte>, at: nat) returns (h: Header)
    requires DynamicCodes(z, at).Codes?
    ensures var c := DynamicCodes(z, at);
            && DynamicOk(h, c.lens, c.dists) && Holds(z, at, DynamicBits(h, c.lens, c.dists))
            && c.at == at + |DynamicBits(h, c.lens, c.dists)|
  {
    hide Peek, Holds, Accepted, SizesBits, CodeLengthSizes, ReadLengths, Writes, LenItemsBits, ToBits;
    var hlit := FieldStands(z, at, 5);
    var hdist := FieldStands(z, at + 5, 5);
    var hclen := FieldStands(z, at + 10, 4);
    assert Pow2(5) == 32 && Pow2(4) == 16;
    var nc := hclen + 4;
    var cl := CodeLengthSizes(z, at + 14, nc);
    var a := at + 14 + 3 * nc;
    var r := ReadLengths(cl, z, a, hlit + 257 + hdist + 1, []);
    var items := LengthsStand(cl, z, a, hlit + 257 + hdist + 1, []);
    h := Header(nc, cl, items);
    var lens, dists := r.lens[..hlit + 257], r.lens[hlit + 257..];
    assert lens + dists == r.lens;
    SizesAreOk(z, at + 14, nc);
    SizesStand(z, at + 14, nc, nc);
    HoldsJoin(z, at, ToBits(hlit, 5), ToBits(hdist, 5));
    HoldsJoin(z, at, ToBits(hlit, 5) + ToBits(hdist, 5), ToBits(hclen, 4));
    HoldsJoin(z, at, CountsBits(h, lens, dists), SizesBits(cl, nc));
    HoldsJoin(z, at, CountsBits(h, lens, dists) + SizesBits(cl, nc), LenItemsBits(cl, items, [], r.lens));
  }

  lemma SizesAreOk(z: seq<byte>, at: nat, nc: nat)
    requires 4 <= nc <= 19
    ensures SizesOk(CodeLengthSizes(z, at, nc), nc)
  {
    hide Peek, PlaceOf, CodeLengthSizes;
    forall c | 0 <= c < 19 && PlaceOf(c) >= nc ensures CodeLengthSizes(z, at, nc)[c] == 0 { SizesRead(z, at, nc, c); }
  }

  // ----- blocks

  /** The lengths of the fixed codes of section 3.2.6 of RFC 1951. */
  function FixedLens(): seq<nat> {
    seq(288, n requires 0 <= n < 288 => if n < 144 then 8 else if n < 256 then 9 else if n < 280 then 7 else 8)
  }

  function FixedDists(): seq<nat> {
    seq(32, _ => 5)
  }

  lemma FixedTables()
    ensures FixedLens() == FIXED_LENS && FixedDists() == FIXED_DISTS && CodesOk(FixedLens(), FixedDists())
  {
    hide Accepted;
    FixedAccepted();
  }

  datatype Block =
    | Stored(pad: seq<bool>, data: seq<byte>)
    | Fixed(items: seq<Item>)
    | Dynamic(h: Header, lens: seq<nat>, dists: seq<nat>, items: seq<Item>)

  function Kind(b: Block): nat {
    match b case Stored(_, _) => 0 case Fixed(_) => 1 case Dynamic(_, _, _, _) => 2
  }

  /** The block can follow `out` with its contents from bit `at` on; stored bytes start at a whole byte. */
  ghost predicate BlockOk(b: Block, at: nat, out: seq<byte>) {
    match b
    case Stored(pad, data) => |pad| < 8 && (at + |pad|) % 8 == 0 && |data| <= 0xFFFF
    case Fixed(items) => ItemsOk(FixedLens(), FixedDists(), items, out)
    case Dynamic(h, lens, dists, items) =>
      DynamicOk(h, lens, dists) && HasCode(lens, 256) && ItemsOk(lens, dists, items, out)
  }

  ghost function BlockBits(b: Block, at: nat, out: seq<byte>): seq<bool>
    requires BlockOk(b, at, out)
  {
    match b
    case Stored(pad, data) => pad + (ToBits(|data|, 16) + ToBits(0xFFFF - |data|, 16)) + BytesBits(data)
    case Fixed(items) => ItemsBits(FixedLens(), FixedDists(), items, out)
    case Dynamic(h, lens, dists, items) => DynamicBits(h, lens, dists) + ItemsBits(lens, dists, items, out)
  }

  ghost function BlockApplied(b: Block, at: nat, out: seq<byte>): seq<byte>
    requires BlockOk(b, at, out)
  {
    match b
    case Stored(_, data) => out + data
    case Fixed(items) => ItemsApplied(FixedLens(), FixedDists(), items, out)
    case Dynamic(_, lens, dists, items) => ItemsApplied(lens, dists, items, out)
  }

  /** The contents stand from `at` to `end`; stored bytes are all there. */
  ghost predicate BlockAt(z: seq<byte>, at: nat, out: seq<byte>, b: Block, end: nat) {
    && BlockOk(b, at, out) && Holds(z, at, BlockBits(b, at, out)) && end == at + |BlockBits(b, at, out)|
    && (b.Stored? ==> end <= 8 * |z|)
  }

  lemma Bytes16(z: seq<byte>, q: nat, at: nat, v: nat)
    requires at == 8 * q && v <= 0xFFFF && Holds(z, at, ToBits(v, 16))
    ensures ByteAt(z, q + 1) * 256 + ByteAt(z, q) == v
  {
    var eight, sixteen := 8, 16;
    Pow2Values(sixteen);
    Pow2Values(eight);
    PeekHolds(z, at, v, sixteen);
    PeekBytes(z, q, at);
  }

  lemma PeekBytes(z: seq<byte>, q: nat, at: nat)
    requires at == 8 * q
    ensures Peek(z, at, 16) == ByteAt(z, q + 1) * 256 + ByteAt(z, q)
  {
    hide Peek;
    var eight := 8;
    Pow2Values(eight);
    PeekByte(z, q, eight);
    PeekByte(z, q + 1, eight);
    PeekJoin(z, at, eight, eight);
    ShlIsMul(Peek(z, at + 8, eight), eight);
  }

  lemma DataRead(z: seq<byte>, q: nat, at: nat, data: seq<byte>)
    requires at == 8 * q && q + |data| <= |z| && Holds(z, at, BytesBits(data))
    ensures z[q..q + |data|] == data
  {
    hide Bit, BytesBits;
    var eight := 8;
    Pow2Values(eight);
    forall k | 0 <= k < |data| ensures z[q + k] == data[k] {
      forall j | 0 <= j < 8 ensures Bit(z[q + k], j) == Bit(data[k], j) {
        BytesBitsAt(data, 8 * k + j);
        assert (at + (8 * k + j)) / 8 == q + k && (at + (8 * k + j)) % 8 == j;
        assert (8 * k + j) / 8 == k && (8 * k + j) % 8 == j;
        assert StreamBit(z, at + (8 * k + j)) == BytesBits(data)[8 * k + j];
      }
      BitExt(z[q + k], data[k], eight);
    }
  }

  lemma DataStands(z: seq<byte>, q: nat, at: nat, n: nat)
    requires at == 8 * q && q + n <= |z|
    ensures Holds(z, at, BytesBits(z[q..q + n]))
  {
    hide Bit, BytesBits;
    var data := z[q..q + n];
    forall i | 0 <= i < |BytesBits(data)| ensures StreamBit(z, at + i) == BytesBits(data)[i] {
      BytesBitsAt(data, i);
      assert (at + i) / 8 == q + i / 8 && (at + i) % 8 == i % 8;
      assert data[i / 8] == z[q + i / 8];
    }
  }

  lemma PadAligns(at: nat, pad: nat)
    requires pad < 8
    ensures (at + pad) % 8 == 0 <==> at + pad == 8 * ((at + 7) / 8)
  {
  }

  lemma StoredRead(z: seq<byte>, at: nat, out: seq<byte>, pad: seq<bool>, data: seq<byte>, end: nat)
    requires BlockAt(z, at, out, Stored(pad, data), end)
    ensures StoredBlock(z, at, out) == Done(end, out + data)
  {
    hide Holds, ToBits, BytesBits, ByteAt, StoredBlock;
    var q := (at + 7) / 8;
    PadAligns(at, |pad|);
    var n, len, nlen := |data|, ToBits(|data|, 16), ToBits(0xFFFF - |data|, 16);
    HoldsSplit(z, at, pad + (len + nlen), BytesBits(data));
    HoldsSplit(z, at, pad, len + nlen);
    HoldsSplit(z, 8 * q, len, nlen);
    Bytes16(z, q, 8 * q, n);
    Bytes16(z, q + 2, 8 * q + 16, 0xFFFF - n);
    DataRead(z, q + 4, 8 * (q + 4), data);
    StoredIs(z, at, q, n, out);
  }

  lemma StoredIs(z: seq<byte>, at: nat, q: nat, n: nat, out: seq<byte>)
    requires q == (at + 7) / 8 && q + 4 + n <= |z|
    requires ByteAt(z, q + 1) * 256 + ByteAt(z, q) == n && ByteAt(z, q + 3) * 256 + ByteAt(z, q + 2) == 0xFFFF - n
    ensures StoredBlock(z, at, out) == Done(8 * (q + 4 + n), out + z[q + 4..q + 4 + n])
  {
    hide ByteAt;
  }

  lemma StoredHas(z: seq<byte>, at: nat, q: nat, out: seq<byte>) returns (n: nat)
    requires q == (at + 7) / 8 && StoredBlock(z, at, out).Done?
    ensures q + 4 + n <= |z| && n <= 0xFFFF
    ensures ByteAt(z, q + 1) * 256 + ByteAt(z, q) == n && ByteAt(z, q + 3) * 256 + ByteAt(z, q + 2) == 0xFFFF - n
  {
    hide ByteAt;
    n := ByteAt(z, q + 1) * 256 + ByteAt(z, q);
  }

  lemma StoredStands(z: seq<byte>, at: nat, out: seq<byte>) returns (b: Block)
    requires StoredBlock(z, at, out).Done?
    ensures b.Stored? && BlockAt(z, at, out, b, StoredBlock(z, at, out).at)
    ensures StoredBlock(z, at, out).out == BlockApplied(b, at, out)
  {
    hide Holds, ToBits, BytesBits, ByteAt, StoredBlock, Peek;
    var q := (at + 7) / 8;
    var n := StoredHas(z, at, q, out);
    StoredIs(z, at, q, n, out);
    PadAligns(at, 8 * q - at);
    var pad := ToBits(Peek(z, at, 8 * q - at), 8 * q - at);
    var data := z[q + 4..q + 4 + n];
    b := Stored(pad, data);
    PeekStands(z, at, 8 * q - at);
    FieldBytes(z, q, 8 * q, n);
    FieldBytes(z, q + 2, 8 * q + 16, 0xFFFF - n);
    DataStands(z, q + 4, 8 * (q + 4), n);
    HoldsJoin(z, 8 * q, ToBits(n, 16), ToBits(0xFFFF - n, 16));
    HoldsJoin(z, at, pad, ToBits(n, 16) + ToBits(0xFFFF - n, 16));
    HoldsJoin(z, at, pad + (ToBits(n, 16) + ToBits(0xFFFF - n, 16)), BytesBits(data));
  }

  lemma FieldBytes(z: seq<byte>, q: nat, at: nat, n: nat)
    requires at == 8 * q && ByteAt(z, q + 1) * 256 + ByteAt(z, q) == n
    ensures Holds(z, at, ToBits(n, 16))
  {
    hide Holds, ToBits, ByteAt, Peek;
    PeekBytes(z, q, at);
    PeekStands(z, at, 16);
  }

  /** A block that stands at `at` is read as what it stands for. */
  lemma BlockRead(z: seq<byte>, at: nat, out: seq<byte>, b: Block, end: nat)
    requires BlockAt(z, at, out, b, end)
    ensures WholeBlock(z, at, out, Kind(b)) == Done(end, BlockApplied(b, at, out))
  {
    hide Holds, AllTokens, DynamicBits, ItemsBits, ItemsOk, ItemsApplied, FixedLens, FixedDists, FIXED_LENS,
         FIXED_DISTS, DynamicCodes, CompressedBlock, Accepted, ValidLens, StoredBlock;
    match b {
      case Stored(pad, data) => StoredRead(z, at, out, pad, data, end);
      case Fixed(items) =>
        FixedTables();
        FixedEnd();
        TokensRead(FixedLens(), FixedDists(), z, at, out, items);
      case Dynamic(h, lens, dists, items) =>
        HoldsSplit(z, at, DynamicBits(h, lens, dists), ItemsBits(lens, dists, items, out));
        DynamicRead(z, at, h, lens, dists);
        TokensRead(lens, dists, z, at + |DynamicBits(h, lens, dists)|, out, items);
    }
  }

  lemma FixedEnd()
    ensures HasCode(FixedLens(), 256)
  {
  }

  lemma TokensRead(lens: seq<nat>, dists: seq<nat>, z: seq<byte>, at: nat, out: seq<byte>, items: seq<Item>)
    requires CodesOk(lens, dists) && HasCode(lens, 256) && ItemsOk(lens, dists, items, out)
    requires Holds(z, at, ItemsBits(lens, dists, items, out))
    ensures AllTokens(lens, dists, z, at, out)
         == Done(at + |ItemsBits(lens, dists, items, out)|, ItemsApplied(lens, dists, items, out))
  {
    hide AllTokens, CompressedBlock, ItemsBits, ItemsApplied, ItemsOk, Holds, Accepted, ValidLens;
    var fuel := Enough(z, at) + |items| + 1;
    ItemsRead(lens, dists, z, at, out, items, fuel);
    TokensDecide(lens, dists, z, at, out, fuel);
  }

  lemma TokensStand(lens: seq<nat>, dists: seq<nat>, z: seq<byte>, at: nat, out: seq<byte>) returns (items: seq<Item>)
    requires CodesOk(lens, dists) && AllTokens(lens, dists, z, at, out).Done?
    ensures HasCode(lens, 256) && ItemsOk(lens, dists, items, out)
    ensures Holds(z, at, ItemsBits(lens, dists, items, out))
    ensures AllTokens(lens, dists, z, at, out)
         == Done(at + |ItemsBits(lens, dists, items, out)|, ItemsApplied(lens, dists, items, out))
  {
    hide AllTokens, CompressedBlock, ItemsBits, ItemsApplied, ItemsOk, Holds, Accepted, ValidLens;
    TokensDecide(lens, dists, z, at, out, Enough(z, at));
    items := BlockStands(lens, dists, z, at, out, Enough(z, at));
  }

  /** Whatever is read as a block is one. */
  lemma WholeBlockStands(z: seq<byte>, at: nat, out: seq<byte>, kind: nat) returns (b: Block)
    requires WholeBlock(z, at, out, kind).Done?
    ensures var r := WholeBlock(z, at, out, kind);
            Kind(b) == kind && BlockAt(z, at, out, b, r.at) && r.out == BlockApplied(b, at, out)
  {
    hide Holds, AllTokens, DynamicBits, ItemsBits, ItemsOk, ItemsApplied, FixedLens, FixedDists, FIXED_LENS,
         FIXED_DISTS, DynamicCodes, Accepted, ValidLens, StoredBlock, HasCode;
    if kind == 0 {
      b := StoredStands(z, at, out);
    } else if kind == 1 {
      FixedTables();
      var items := TokensStand(FixedLens(), FixedDists(), z, at, out);
      b := Fixed(items);
    } else {
      var c := DynamicCodes(z, at);
      var h := DynamicStands(z, at);
      var items := TokensStand(c.lens, c.dists, z, c.at, out);
      b := Dynamic(h, c.lens, c.dists, items);
      HoldsJoin(z, at, DynamicBits(h, c.lens, c.dists), ItemsBits(c.lens, c.dists, items, out));
    }
  }

  // ----- streams

  /** A bit that only the last block has set, and the kind of the block. */
  function BlockHead(last: bool, b: Block): (r: seq<bool>)
    ensures |r| == 3
  {
    [last] + ToBits(Kind(b), 2)
  }

  /** The blocks stand from `at` to `end`, the last one and only that with its bit set, and make `result` of `out`. */
  ghost predicate StreamAt(z: seq<byte>, at: nat, out: seq<byte>, blocks: seq<Block>, end: nat, result: seq<byte>)
    decreases |blocks|
  {
    hide Holds, BlockHead, BlockOk, BlockBits, BlockApplied, BlockAt;
    && blocks != [] && Holds(z, at, BlockHead(|blocks| == 1, blocks[0])) && BlockOk(blocks[0], at + 3, out)
    && var mid := at + 3 + |BlockBits(blocks[0], at + 3, out)|;
       var next := BlockApplied(blocks[0], at + 3, out);
       && BlockAt(z, at + 3, out, blocks[0], mid)
       && if |blocks| == 1 then end == mid && result == next else StreamAt(z, mid, next, blocks[1..], end, result)
  }

  lemma HeadRead(z: seq<byte>, at: nat, last: bool, b: Block)
    requires Holds(z, at, BlockHead(last, b))
    ensures Peek(z, at, 1) == B2N(last) && Peek(z, at + 1, 2) == Kind(b)
  {
    assert Pow2(2) == 4;
    HoldsSplit(z, at, [last], ToBits(Kind(b), 2));
    assert StreamBit(z, at + 0) == [last][0];
    PeekHolds(z, at + 1, Kind(b), 2);
  }

  lemma HeadStands(z: seq<byte>, at: nat, b: Block)
    requires Peek(z, at + 1, 2) == Kind(b)
    ensures Holds(z, at, BlockHead(Peek(z, at, 1) == 1, b))
  {
    PeekStands(z, at + 1, 2);
    assert Peek(z, at, 1) == B2N(StreamBit(z, at)) + 2 * Peek(z, at + 1, 0);
    assert Holds(z, at, [Peek(z, at, 1) == 1]);
    hide Holds, ToBits, Peek;
    HoldsJoin(z, at, [Peek(z, at, 1) == 1], ToBits(Kind(b), 2));
  }

  lemma {:induction false} StreamRead(z: seq<byte>, at: nat, out: seq<byte>, blocks: seq<Block>, end: nat,
                                      result: seq<byte>)
    requires StreamAt(z, at, out, blocks, end, result)
    ensures AllBlocks(z, at, out) == Done(end, result)
    decreases |blocks|
  {
    hide Holds, BlockAt, BlockOk, BlockBits, BlockApplied, WholeBlock, Peek, BlockHead;
    var b := blocks[0];
    var mid, next := at + 3 + |BlockBits(b, at + 3, out)|, BlockApplied(b, at + 3, out);
    HeadRead(z, at, |blocks| == 1, b);
    BlockRead(z, at + 3, out, b, mid);
    if |blocks| > 1 { StreamRead(z, mid, next, blocks[1..], end, result); }
  }

  lemma {:induction false} StreamStands(z: seq<byte>, at: nat, out: seq<byte>) returns (blocks: seq<Block>)
    requires AllBlocks(z, at, out).Done?
    ensures var r := AllBlocks(z, at, out); StreamAt(z, at, out, blocks, r.at, r.out)
    decreases Enough(z, at)
  {
    hide Holds, BlockOk, BlockBits, BlockApplied, WholeBlock, Peek, BlockHead;
    var r := AllBlocks(z, at, out);
    WholeBlockAdvances(z, at, out);
    var w := WholeBlock(z, at + 3, out, Peek(z, at + 1, 2));
    var b := WholeBlockStands(z, at + 3, out, Peek(z, at + 1, 2));
    HeadStands(z, at, b);
    blocks := [b];
    if Peek(z, at, 1) != 1 {
      var rest := StreamStands(z, w.at, w.out);
      blocks := [b] + rest;
      assert blocks[1..] == rest;
    }
  }

  /** The two bytes of section 2.2 of RFC 1950: method 8, check bits, and no preset dictionary. */
  predicate ZlibHead(cmf: byte, flg: byte) {
    cmf % 16 == 8 && (exists k: nat :: k < 0x1000 && cmf * 256 + flg == 31 * k) && !Bit(flg, 5)
  }

  lemma Multiple(n: nat)
    requires n < 0x1_0000
    ensures n % 31 == 0 <==> exists k: nat :: k < 0x1000 && n == 31 * k
  {
    if n % 31 == 0 {
      var k: nat := n / 31;
      assert k < 0x1000 && n == 31 * k;
    }
  }

  lemma ZlibHeadIsOk(cmf: byte, flg: byte)
    ensures ZlibHead(cmf, flg) <==> HeaderOk(cmf, flg)
  {
    Bit5(flg);
    hide Bit;
    Multiple(cmf * 256 + flg);
  }

  /** The bit behind the header, if there is one. */
  function StartOf(header: bool): nat {
    if header then 16 else 0
  }

  /** The decoder accepts exactly the streams of the format, and gives what they stand for. */
  lemma InflatesExactly(z: seq<byte>, header: bool, end: nat, result: seq<byte>)
    ensures InflateAll(z, header) == Done(end, result) <==>
            (header ==> ZlibHead(ByteAt(z, 0), ByteAt(z, 1)))
            && exists blocks :: StreamAt(z, StartOf(header), [], blocks, end, result)
  {
    ZlibHeadIsOk(ByteAt(z, 0), ByteAt(z, 1));
    hide AllBlocks, StreamAt, ZlibHead, HeaderOk;
    var at := StartOf(header);
    if InflateAll(z, header) == Done(end, result) { var blocks := StreamStands(z, at, []); }
    if blocks :| StreamAt(z, at, [], blocks, end, result) { StreamRead(z, at, [], blocks, end, result); }
  }

  /** The same for the streams as a whole. */
  lemma Inflates(z: seq<byte>, header: bool)
    ensures InflateAll(z, header).Done? <==>
            (header ==> ZlibHead(ByteAt(z, 0), ByteAt(z, 1)))
            && exists blocks, end, result :: StreamAt(z, StartOf(header), [], blocks, end, result)
    ensures forall blocks, end, result ::
              InflateAll(z, header).Done? && StreamAt(z, StartOf(header), [], blocks, end, result) ==>
                InflateAll(z, header) == Done(end, result)
  {
    hide InflateAll, StreamAt, ZlibHead;
    var r := InflateAll(z, header);
    if r.Done? { InflatesExactly(z, header, r.at, r.out); }
    forall blocks, end, result | StreamAt(z, StartOf(header), [], blocks, end, result)
      ensures (header ==> ZlibHead(ByteAt(z, 0), ByteAt(z, 1))) <==> InflateAll(z, header) == Done(end, result)
    {
      InflatesExactly(z, header, end, result);
      assert exists bs :: StreamAt(z, StartOf(header), [], bs, end, result);
    }
  }
}
