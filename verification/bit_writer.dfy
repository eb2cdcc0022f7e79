/**
 The compressor's output: a bit buffer flushed by bytes, least significant bit
 first.
 */
module BitWriting {
  import opened Basics
  import opened Bits
  import opened BitStream
  import opened DeflateSpec

  /** The bits of a byte sequence in stream order. */
  function BytesBits(out: seq<byte>): (r: seq<bool>)
    ensures |r| == 8 * |out|
  {
    if out == [] then [] else BytesBits(out[..|out| - 1]) + ToBits(out[|out| - 1], 8)
  }

  lemma {:induction false} BytesBitsAt(out: seq<byte>, i: nat)
    requires i < 8 * |out|
    ensures BytesBits(out)[i] == Bit(out[i / 8], i % 8)
    decreases |out|
  {
    var n := |out| - 1;
    assert BytesBits(out) == BytesBits(out[..n]) + ToBits(out[n], 8);
    hide BytesBits, ToBits, Bit;
    if i < 8 * n {
      BytesBitsAt(out[..n], i);
    } else {
      ToBitsAt(out[n], 8, i - 8 * n);
      assert i / 8 == n && i % 8 == i - 8 * n;
    }
  }

  /** A decoder reads back any prefix of the written bits, whatever bytes follow. */
  lemma BytesHold(out: seq<byte>, tail: seq<byte>, bits: seq<bool>)
    requires bits <= BytesBits(out)
    ensures Holds(out + tail, 0, bits)
  {
    forall i | 0 <= i < |bits| ensures StreamBit(out + tail, 0 + i) == bits[i] {
      BytesBitsAt(out, i);
      assert (out + tail)[i / 8] == out[i / 8];
    }
  }

  lemma {:induction false} ToBitsJoin(x: nat, y: nat, n: nat, m: nat)
    requires x < Pow2(n)
    ensures ToBits(x + Shl(y, n), n + m) == ToBits(x, n) + ToBits(y, m)
    decreases n
  {
    if n > 0 {
      assert (x + Shl(y, n)) / 2 == x / 2 + Shl(y, n - 1);
      assert (x + Shl(y, n)) % 2 == x % 2;
      ToBitsJoin(x / 2, y, n - 1, m);
      assert [x % 2 == 1] + (ToBits(x / 2, n - 1) + ToBits(y, m)) == ToBits(x, n) + ToBits(y, m);
    }
  }

  lemma HeaderBytes()
    ensures BytesBits([0x78, 0x5e]) == ToBits(0x78, 8) + ToBits(0x5e, 8)
  {
    hide ToBits;
    var out: seq<byte> := [0x78, 0x5e];
    assert out[..1] == [0x78] && [0x78][..0] == [];
    assert BytesBits(out) == BytesBits([0x78]) + ToBits(0x5e, 8);
  }

  /** How many bits are missing to the next multiple of eight. */
  function Padding(n: nat): nat {
    Missing(n % 8)
  }

  function Missing(rest: nat): nat
    requires rest < 8
  {
    if rest == 0 then 0 else 8 - rest
  }

  lemma PaddingOf(bytes: nat, rest: nat)
    requires rest < 8
    ensures Padding(8 * bytes + rest) == Missing(rest)
  {
  }

  lemma NoZeros()
    ensures Fill(false, 0) == []
  {
  }

  lemma OneMoreZero(s: seq<bool>, k: nat)
    ensures s + Fill(false, k) + [false] == s + Fill(false, k + 1)
  {
  }

  class BitWriter {
    var out: seq<byte>
    var bitbuf: uint32
    var bitcount: nat

    /** Between operations less than a byte is pending. */
    ghost predicate Valid()
      reads this
    {
      bitcount < 8 && bitbuf < Pow2(bitcount)
    }

    /** Every bit written so far. */
    ghost function Written(): seq<bool>
      reads this
    {
      BytesBits(out) + ToBits(bitbuf, bitcount)
    }

    /** The zlib header is pushed as two whole bytes. */
    constructor ()
      ensures Valid() && bitcount == 0 && out == [0x78, 0x5e]
      ensures Written() == ToBits(0x78, 8) + ToBits(0x5e, 8)
    {
      out, bitbuf, bitcount := [0x78, 0x5e], 0, 0;
      new;
      HeaderBytes();
    }

    /** Moves whole bytes from the bit buffer to the output. */
    method Flush()
      requires bitbuf < Pow2(bitcount)
      modifies this
      ensures Valid() && Written() == old(Written())
    {
      hide BytesBits, ToBits, Low, Shr, Pow2;
      while bitcount >= 8
        invariant bitbuf < Pow2(bitcount) && Written() == old(Written())
      {
        PushByte(8);
      }
    }

    method PushByte(eight: nat)
      requires eight == 8 && bitcount >= 8 && bitbuf < Pow2(bitcount)
      modifies this
      ensures bitcount == old(bitcount) - 8 && bitbuf < Pow2(bitcount) && Written() == old(Written())
    {
      hide ToBits, Low, Shr, Pow2;
      SplitBuffer(bitbuf, bitcount, eight);
      var b: byte := Low(bitbuf, eight);
      assert (out + [b])[..|out|] == out;
      out := out + [b];
      bitbuf := Shr(bitbuf, eight);
      bitcount := bitcount - 8;
      assert Written() == old(BytesBits(out)) + (ToBits(b, 8) + ToBits(bitbuf, bitcount));
    }

    /** Writes the low `n` bits of `code`. */
    method Add(code: nat, n: nat)
      requires Valid() && n <= 16 && code < Pow2(n)
      modifies this
      ensures Valid() && Written() == old(Written()) + ToBits(code, n)
    {
      hide BytesBits, ToBits, Or, Shl, Pow2;
      JoinBuffer(bitbuf, code, bitcount, n);
      bitbuf := Or(bitbuf, Shl(code, bitcount));
      bitcount := bitcount + n;
      assert Written() == old(Written()) + ToBits(code, n);
      Flush();
    }

    /** Writes zero bits up to the next byte boundary, and no further. */
    method Pad()
      requires Valid()
      modifies this
      ensures BytesBits(out) == old(Written()) + Fill(false, Padding(|old(Written())|))
    {
      hide BytesBits, ToBits, Pow2, Padding, Fill;
      ghost var was, k: nat := Written(), 0;
      assert Padding(|was|) == Missing(bitcount) by { PaddingOf(|out|, bitcount); }
      assert Fill(false, 0) == [] by { NoZeros(); }
      while bitcount != 0
        invariant Valid() && Written() == was + Fill(false, k) && k + Missing(bitcount) == Padding(|was|)
        decreases Missing(bitcount)
      {
        AddZero();
        OneMoreZero(was, k);
        k := k + 1;
      }
      assert ToBits(bitbuf, 0) == [];
    }

    method AddZero()
      requires Valid() && bitcount != 0
      modifies this
      ensures Valid() && Written() == old(Written()) + [false]
      ensures bitcount == if old(bitcount) == 7 then 0 else old(bitcount) + 1
    {
      hide BytesBits;
      ghost var n := |Written()|;
      Add(0, 1);
      assert ToBits(0, 1) == [false];
      assert |Written()| == n + 1;
    }
  }

  lemma SplitBuffer(v: nat, n: nat, m: nat)
    requires m <= n && v < Pow2(n)
    ensures Low(v, m) < Pow2(m) && Shr(v, m) < Pow2(n - m) && Shr(v, m) <= v
    ensures ToBits(v, n) == ToBits(Low(v, m), m) + ToBits(Shr(v, m), n - m)
    ensures m == 8 ==> Low(v, m) < 0x100
  {
    LowBound(v, m);
    LowShr(v, m);
    ToBitsJoin(Low(v, m), Shr(v, m), m, n - m);
    Pow2Values(m);
    if Shr(v, m) >= Pow2(n - m) {
      ShlMono(Pow2(n - m), Shr(v, m), m);
      Pow2Shl(n - m, m);
    }
    ShlMono(0, Shr(v, m), m);
    ShlGrows(Shr(v, m), m);
  }

  lemma JoinBuffer(v: nat, code: nat, n: nat, m: nat)
    requires v < Pow2(n) && code < Pow2(m) && n + m <= 32
    ensures Or(v, Shl(code, n)) < Pow2(n + m) && Or(v, Shl(code, n)) < 0x1_0000_0000
    ensures ToBits(Or(v, Shl(code, n)), n + m) == ToBits(v, n) + ToBits(code, m)
  {
    OrDisjoint(v, code, n);
    JoinBound(v, code, n, m);
    ToBitsJoin(v, code, n, m);
    var word := 32;
    Pow2Mono(n + m, word);
    Pow2Values(word);
  }
}
