/**
 Reversing the low bits of a word by four swapping stages, proved equal to the
 bit-by-bit reversal `Rev`.
 */
module BitReversal {
  import opened Bits

  /** Swaps groups of `n` bits selected by the masks `hi` and `lo`. */
  function SwapGroups(v: nat, hi: nat, lo: nat, n: nat): nat {
    Or(Shr(And(v, hi), n), Shl(And(v, lo), n))
  }

  function BitReverse16(v: nat): nat {
    var v := SwapGroups(v, 0xAAAA, 0x5555, 1);
    var v := SwapGroups(v, 0xCCCC, 0x3333, 2);
    var v := SwapGroups(v, 0xF0F0, 0x0F0F, 4);
    SwapGroups(v, 0xFF00, 0x00FF, 8)
  }

  function BitReverse(v: nat, bits: nat): nat
    requires bits <= 16
  {
    Shr(BitReverse16(v), 16 - bits)
  }

  lemma SwapGroupsBit(v: nat, hi: nat, lo: nat, n: nat, i: nat)
    ensures Bit(SwapGroups(v, hi, lo, n), i) <==>
            (Bit(v, i + n) && Bit(hi, i + n)) || (i >= n && Bit(v, i - n) && Bit(lo, i - n))
  {
    BitOr(Shr(And(v, hi), n), Shl(And(v, lo), n), i);
    BitShr(And(v, hi), n, i);
    BitAnd(v, hi, i + n);
    BitShl(And(v, lo), n, i);
    if i >= n { BitAnd(v, lo, i - n); }
  }

  /** `x` has, below 16, exactly the bits whose group `i / n` is odd, respectively even. */
  predicate IsMask(x: nat, n: nat, odd: bool)
    requires n > 0
  {
    x < 0x1_0000 && forall i :: 0 <= i < 16 ==> Bit(x, i) == ((i / n % 2 == 1) == odd)
  }

  lemma Nibble(c: nat, r: nat, i: nat)
    requires c < 16
    ensures Bit(c + 16 * r, i) == if i < 4 then Bit(c, i) else Bit(r, i - 4)
  {
    var x := c + 16 * r;
    assert x / 2 == c / 2 + 8 * r;
    assert x / 2 / 2 == c / 2 / 2 + 4 * r;
    assert x / 2 / 2 / 2 == c / 2 / 2 / 2 + 2 * r;
    assert x / 2 / 2 / 2 / 2 == r;
    if i == 0 {} else if i == 1 {} else if i == 2 {} else if i == 3 {} else {
      assert Bit(x, i) == Bit(x / 2, i - 1) == Bit(x / 2 / 2, i - 2) == Bit(x / 2 / 2 / 2, i - 3);
    }
  }

  /** The bits of a four-digit hexadecimal constant are the bits of its digits. */
  lemma FourNibbles(c3: nat, c2: nat, c1: nat, c0: nat, i: nat)
    requires c3 < 16 && c2 < 16 && c1 < 16 && c0 < 16 && i < 16
    ensures Bit(4096 * c3 + 256 * c2 + 16 * c1 + c0, i) == Bit([c0, c1, c2, c3][i / 4], i % 4)
  {
    Nibble(c0, c1 + 16 * (c2 + 16 * c3), i);
    if i >= 4 { Nibble(c1, c2 + 16 * c3, i - 4); }
    if i >= 8 { Nibble(c2, c3, i - 8); }
  }

  lemma NibbleBits(k: nat)
    requires k < 4
    ensures Bit(0xA, k) == (k % 2 == 1) && Bit(0x5, k) == (k % 2 == 0)
    ensures Bit(0xC, k) == (k >= 2) && Bit(0x3, k) == (k < 2)
    ensures Bit(0xF, k) && !Bit(0, k)
  {
    if k == 0 {} else if k == 1 {} else if k == 2 {} else {}
  }

  lemma Masks1()
    ensures IsMask(0xAAAA, 1, true) && IsMask(0x5555, 1, false)
  {
    forall i | 0 <= i < 16
      ensures Bit(0xAAAA, i) == (i / 1 % 2 == 1) && Bit(0x5555, i) == (i / 1 % 2 == 0)
    {
      NibbleBits(i % 4);
      FourNibbles(0xA, 0xA, 0xA, 0xA, i);
      FourNibbles(0x5, 0x5, 0x5, 0x5, i);
    }
  }

  lemma Masks2()
    ensures IsMask(0xCCCC, 2, true) && IsMask(0x3333, 2, false)
  {
    forall i | 0 <= i < 16
      ensures Bit(0xCCCC, i) == (i / 2 % 2 == 1) && Bit(0x3333, i) == (i / 2 % 2 == 0)
    {
      NibbleBits(i % 4);
      FourNibbles(0xC, 0xC, 0xC, 0xC, i);
      FourNibbles(0x3, 0x3, 0x3, 0x3, i);
    }
  }

  lemma Masks4()
    ensures IsMask(0xF0F0, 4, true) && IsMask(0x0F0F, 4, false)
  {
    forall i | 0 <= i < 16
      ensures Bit(0xF0F0, i) == (i / 4 % 2 == 1) && Bit(0x0F0F, i) == (i / 4 % 2 == 0)
    {
      NibbleBits(i % 4);
      FourNibbles(0xF, 0x0, 0xF, 0x0, i);
      FourNibbles(0x0, 0xF, 0x0, 0xF, i);
    }
  }

  lemma Masks8()
    ensures IsMask(0xFF00, 8, true) && IsMask(0x00FF, 8, false)
  {
    forall i | 0 <= i < 16
      ensures Bit(0xFF00, i) == (i / 8 % 2 == 1) && Bit(0x00FF, i) == (i / 8 % 2 == 0)
    {
      NibbleBits(i % 4);
      FourNibbles(0xF, 0xF, 0x0, 0x0, i);
      FourNibbles(0x0, 0x0, 0xF, 0xF, i);
    }
  }

  /** The bit that a stage with groups of `n` bits moves to place `i`. */
  function Partner(i: nat, n: nat): nat
    requires n > 0
  {
    if i / n % 2 == 0 || i < n then i + n else i - n
  }

  lemma PartnerParity(i: nat, n: nat)
    requires n in {1, 2, 4, 8} && i < 16
    ensures Partner(i, n) < 16
    ensures (i + n < 16 && (i + n) / n % 2 == 1) <==> Partner(i, n) == i + n
    ensures i >= n ==> ((i - n) / n % 2 == 0 <==> Partner(i, n) == i - n)
  {
    if n == 1 {} else if n == 2 {} else if n == 4 {} else {}
  }

  lemma StageBit(v: nat, hi: nat, lo: nat, n: nat, i: nat)
    requires n in {1, 2, 4, 8} && i < 16
    requires IsMask(hi, n, true) && IsMask(lo, n, false)
    ensures Bit(SwapGroups(v, hi, lo, n), i) == Bit(v, Partner(i, n))
  {
    PartnerParity(i, n);
    SwapGroupsBit(v, hi, lo, n, i);
    Pow2Values(16);
    if i + n >= 16 { BitAbove(hi, 16, i + n); }
  }

  lemma PartnersReverse(i: nat)
    requires i < 16
    ensures Partner(i, 8) < 16 && Partner(Partner(i, 8), 4) < 16
    ensures Partner(Partner(Partner(i, 8), 4), 2) < 16
    ensures Partner(Partner(Partner(Partner(i, 8), 4), 2), 1) == 15 - i
  {
    var i3 := Partner(i, 8);
    assert i3 == if i < 8 then i + 8 else i - 8;
    var i2 := Partner(i3, 4);
    assert i2 == if i3 % 8 < 4 then i3 + 4 else i3 - 4;
    var i1 := Partner(i2, 2);
    assert i1 == if i2 % 4 < 2 then i2 + 2 else i2 - 2;
  }

  /** The four swapping stages reverse sixteen bits. */
  lemma BitReverse16Bit(v: nat, i: nat)
    requires i < 16
    ensures Bit(BitReverse16(v), i) == Bit(v, 15 - i)
  {
    var v1 := SwapGroups(v, 0xAAAA, 0x5555, 1);
    var v2 := SwapGroups(v1, 0xCCCC, 0x3333, 2);
    var v3 := SwapGroups(v2, 0xF0F0, 0x0F0F, 4);
    var i3 := Partner(i, 8);
    var i2 := Partner(i3, 4);
    var i1 := Partner(i2, 2);
    PartnersReverse(i);
    assert Bit(BitReverse16(v), i) == Bit(v3, i3) by { Masks8(); StageBit(v3, 0xFF00, 0x00FF, 8, i); }
    assert Bit(v3, i3) == Bit(v2, i2) by { Masks4(); StageBit(v2, 0xF0F0, 0x0F0F, 4, i3); }
    assert Bit(v2, i2) == Bit(v1, i1) by { Masks2(); StageBit(v1, 0xCCCC, 0x3333, 2, i2); }
    assert Bit(v1, i1) == Bit(v, 15 - i) by { Masks1(); StageBit(v, 0xAAAA, 0x5555, 1, i1); }
  }

  lemma SwapGroupsBound(v: nat, hi: nat, lo: nat, n: nat, m: nat)
    requires hi < Pow2(n + m) && lo < Pow2(m)
    ensures SwapGroups(v, hi, lo, n) < Pow2(n + m)
  {
    AndBound(v, hi);
    LowShr(And(v, hi), n);
    ShlGrows(Shr(And(v, hi), n), n);
    AndBound(v, lo);
    ShlMono(And(v, lo), Pow2(m), n);
    Pow2Shl(m, n);
    OrBound(Shr(And(v, hi), n), Shl(And(v, lo), n), n + m);
  }

  /** Reversing sixteen bits and shifting reverses the low `bits` bits. */
  lemma BitReverseIsRev(v: nat, bits: nat)
    requires bits <= 16
    ensures BitReverse(v, bits) == Rev(v, bits)
  {
    var r := BitReverse16(v);
    var eight := 8;
    Pow2Values(eight);
    Pow2Values(eight + eight);
    var v1 := SwapGroups(v, 0xAAAA, 0x5555, 1);
    var v2 := SwapGroups(v1, 0xCCCC, 0x3333, 2);
    SwapGroupsBound(SwapGroups(v2, 0xF0F0, 0x0F0F, 4), 0xFF00, 0x00FF, 8, eight);
    RevBound(v, 16);
    forall i | 0 <= i < 16 ensures Bit(r, i) == Bit(Rev(v, 16), i) {
      BitReverse16Bit(v, i);
      BitRev(v, 16, i);
    }
    BitExt(r, Rev(v, 16), 16);
    ShrRev(v, 16, bits);
  }
}
