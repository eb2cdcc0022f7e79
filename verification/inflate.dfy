/**
 The inflater: a 32-bit bit buffer refilled by bytes, table-driven Huffman
 decoding, and the block parsers, each proved against the bit-by-bit reading of
 InflateSpec for every input.
 */
module Inflater {
  import opened Basics
  import opened Bits
  import opened BitReversal
  import opened BitStream
  import opened DeflateTables
  import opened Huffman
  import opened HuffmanTables
  import opened InflateFuel
  import F = DeflateFormat
  import opened InflateSpec

  const WINDOW: nat := 16 // bits looked at by the slow path

  /** Or-ing the next byte in above the buffered bits extends the buffer by that byte. */
  lemma FillStep(z: seq<byte>, at: nat, n: nat, eight: nat, k: nat)
    requires eight == 8 && n <= 24 && at + n == 8 * k
    ensures Or(Peek(z, at, n), Shl(ByteAt(z, k), n)) == Peek(z, at, n + eight) < 0x1_0000_0000
  {
    PeekByte(z, k, eight);
    PeekBound(z, at, n);
    PeekJoin(z, at, n, eight);
    PeekBound(z, at, n + eight);
    OrDisjoint(Peek(z, at, n), ByteAt(z, k), n);
    var word := 32;
    Pow2Mono(n + eight, word);
    Pow2Values(word);
  }

  lemma Aligned(at: nat, n: nat, k: nat)
    requires at + n == 8 * k
    ensures at + n % 8 == 8 * ((at + 7) / 8)
  {
  }

  /** Past the fast table's codes, the first upper bound above the window tells the code's length. */
  lemma SlowLengthStart(lens: seq<nat>, w: nat, s: nat)
    requires ValidLens(lens) && FAST_BITS < s <= 15
    requires forall i :: 0 <= i < |lens| && lens[i] <= FAST_BITS ==> !Matches(lens, i, w)
    requires forall t :: FAST_BITS < t < s ==> Rev(w, t) >= EndCode(lens, t)
    requires Rev(w, s) < EndCode(lens, s)
    ensures FirstCode(lens, s) <= Rev(w, s)
  {
    if Rev(w, s - 1) < EndCode(lens, s - 1) {
      assert s - 1 == FAST_BITS;
      var i := BelowEndMatches(lens, w, s - 1);
    }
  }

  lemma NoCodeAbove(lens: seq<nat>, w: nat)
    requires ValidLens(lens)
    requires forall i :: 0 <= i < |lens| && lens[i] <= FAST_BITS ==> !Matches(lens, i, w)
    requires forall t :: FAST_BITS < t < 16 ==> Rev(w, t) >= EndCode(lens, t)
    ensures NaiveDecode(lens, w, 1) == -1
  {
    var r := NaiveDecode(lens, w, 1);
    if r >= 0 { CodeInRange(lens, r); }
  }

  /** The pre-shifted comparison of the 16 reversed bits with `maxcode`. */
  lemma MaxcodeTest(w: nat, e: nat, s: nat, k: nat, n: nat)
    requires s <= n == 16 && k == Rev(w, n)
    ensures k < 0x1_0000
    ensures k < Shl(e, n - s) <==> Rev(w, s) < e
    ensures Shr(k, n - s) == Rev(w, s)
  {
    RevBound(w, n);
    Pow2Values(n);
    LessShl(k, e, n - s);
    ShrRev(w, n, s);
  }

  /** The slow path's arithmetic leads to the slot of the one symbol that naive decoding finds. */
  lemma SlowSymbol(lens: seq<nat>, w: nat, s: nat)
    requires ValidLens(lens) && FAST_BITS < s <= 15
    requires forall i :: 0 <= i < |lens| && lens[i] <= FAST_BITS ==> !Matches(lens, i, w)
    requires forall t :: FAST_BITS < t < s ==> Rev(w, t) >= EndCode(lens, t)
    requires Rev(w, s) < EndCode(lens, s)
    ensures FirstCode(lens, s) <= Rev(w, s)
    ensures var r := NaiveDecode(lens, w, 1);
            0 <= r && lens[r] == s && Slot(lens, r) == Rev(w, s) - FirstCode(lens, s) + FirstSymbol(lens, s)
  {
    SlowLengthStart(lens, w, s);
    assert lens[..|lens|] == lens;
    var i := NthSymbol(lens, s, Rev(w, s) - FirstCode(lens, s), |lens|);
    NaiveDecodeFinds(lens, i, w);
  }

  lemma FastWindow(lens: seq<nat>, i: nat, w: nat)
    requires i < |lens| && lens[i] <= FAST_BITS
    ensures Matches(lens, i, Low(w, FAST_BITS)) == Matches(lens, i, w)
  {
    RevLow(w, FAST_BITS, lens[i]);
  }

  /** Naive decoding looks at no more than 15 bits of its window. */
  lemma {:induction false} NaiveWindow(lens: seq<nat>, z: seq<byte>, at: nat, n: nat, m: nat, s: nat)
    requires 15 <= n && 15 <= m && 1 <= s <= 16
    ensures NaiveDecode(lens, Peek(z, at, n), s) == NaiveDecode(lens, Peek(z, at, m), s)
    decreases 16 - s
  {
    if s < 16 {
      PeekRev(z, at, n, m, s);
      NaiveWindow(lens, z, at, n, m, s + 1);
    }
  }

  /** A fast-table entry names the next symbol and its length. */
  lemma FastHit(lens: seq<nat>, w: nat, b: nat) returns (i: nat)
    requires ValidLens(lens) && b != 0
    requires FastEntry(lens, |lens|, Low(w, FAST_BITS), b)
    ensures i < |lens| && b / 512 == lens[i] <= FAST_BITS && b % 512 == i
    ensures NaiveDecode(lens, w, 1) == i
  {
    i :| 0 <= i < |lens| && lens[i] <= FAST_BITS && Matches(lens, i, Low(w, FAST_BITS));
    FastWindow(lens, i, w);
    assert b == 512 * lens[i] + i;
    NaiveDecodeFinds(lens, i, w);
  }

  /** An empty entry means that no short code matches. */
  lemma FastMiss(lens: seq<nat>, w: nat)
    requires ValidLens(lens) && FastEntry(lens, |lens|, Low(w, FAST_BITS), 0)
    ensures forall i :: 0 <= i < |lens| && lens[i] <= FAST_BITS ==> !Matches(lens, i, w)
  {
    forall i | 0 <= i < |lens| && lens[i] <= FAST_BITS ensures !Matches(lens, i, w) {
      FastWindow(lens, i, w);
    }
  }

  datatype TokenStatus = TokenMore | TokenEnd | TokenBad | TokenUnwritten

  datatype Status = Ok | Err | Undefined | NoFuel

  /** What a parser's result and the state it leaves say about the stream. */
  function StepOf(status: TokenStatus, at: nat, out: seq<byte>): Step {
    match status
    case TokenMore => More(at, out)
    case TokenEnd => End(at, out)
    case TokenBad => BadCode
    case TokenUnwritten => Unwritten
  }

  function OutcomeOf(status: Status, at: nat, out: seq<byte>): Outcome {
    match status
    case Ok => Done(at, out)
    case Err => Corrupt
    case Undefined => Unspecified
    case NoFuel => OutOfFuel
  }

  class ZBuf {
    const zbuffer: seq<byte>
    var pos: nat            // the next byte of zbuffer
    var num_bits: nat
    var code_buffer: uint32
    var zout: seq<byte>
    const z_length: ZHuffman
    const z_distance: ZHuffman
    ghost var fetched: nat  // bytes delivered, zeros after the end included
    ghost var at: nat       // position of the next unread bit

    ghost predicate Valid()
      reads this
    {
      && pos == (if fetched < |zbuffer| then fetched else |zbuffer|)
      && at + num_bits == 8 * fetched
      && num_bits <= 32
      && code_buffer == Peek(zbuffer, at, num_bits)
    }

    /** The two tables share no array. */
    ghost predicate Shape() {
      && z_length.Valid() && z_distance.Valid() && z_length.Repr !! z_distance.Repr
      && this !in z_length.Repr && this !in z_distance.Repr
    }

    ghost predicate Tables(lens: seq<nat>, dists: seq<nat>)
      requires Shape()
      reads z_length.Repr, z_distance.Repr
    {
      z_length.Holds(lens) && z_distance.Holds(dists)
    }

    constructor (buffer: seq<byte>)
      ensures Valid() && Shape() && fresh(z_length.Repr) && fresh(z_distance.Repr)
      ensures zbuffer == buffer && fetched == 0 && num_bits == 0 && zout == []
    {
      var l := new ZHuffman();
      var d := new ZHuffman();
      zbuffer, pos, num_bits, code_buffer, zout := buffer, 0, 0, 0, [];
      z_length, z_distance := l, d;
      fetched, at := 0, 0;
    }

    method ZGet8() returns (b: byte)
      requires pos == if fetched < |zbuffer| then fetched else |zbuffer|
      modifies this`pos, this`fetched
      ensures b == ByteAt(zbuffer, old(fetched)) && fetched == old(fetched) + 1
      ensures pos == if fetched < |zbuffer| then fetched else |zbuffer|
    {
      fetched := fetched + 1;
      if pos >= |zbuffer| { return 0; }
      b := zbuffer[pos];
      pos := pos + 1;
    }

    method FillBits()
      requires Valid() && num_bits <= 24
      modifies this`pos, this`fetched, this`num_bits, this`code_buffer
      ensures Valid() && num_bits > 24
    {
      while true
        invariant Valid() && num_bits <= 24
        decreases 32 - num_bits
      {
        var b := ZGet8();
        FillStep(zbuffer, at, num_bits, 8, fetched - 1);
        code_buffer := Or(code_buffer, Shl(b, num_bits));
        num_bits := num_bits + 8;
        if num_bits > 24 { break; }
      }
    }

    /** Drops the `n` bits just used. */
    method Consume(n: nat)
      requires Valid() && n <= num_bits
      modifies this`num_bits, this`code_buffer, this`at
      ensures Valid() && at == old(at) + n && num_bits == old(num_bits) - n
    {
      PeekShr(zbuffer, at, num_bits, n);
      LowShr(code_buffer, n);
      ShlGrows(Shr(code_buffer, n), n);
      code_buffer := Shr(code_buffer, n);
      num_bits := num_bits - n;
      at := at + n;
    }

    method ZReceive(n: nat) returns (k: nat)
      requires Valid() && n <= 24
      modifies this`pos, this`fetched, this`num_bits, this`code_buffer, this`at
      ensures Valid() && at == old(at) + n
      ensures k == Peek(zbuffer, old(at), n)
    {
      if num_bits < n { FillBits(); }
      PeekLow(zbuffer, at, num_bits, n);
      k := Low(code_buffer, n);
      Consume(n);
    }

    method DecodeSlowpath(t: ZHuffman, ghost lens: seq<nat>) returns (r: int)
      requires Valid() && num_bits >= 16
      requires t.Valid()
      requires ValidLens(lens) && t.SlowHolds(lens)
      requires forall i :: 0 <= i < |lens| && lens[i] <= FAST_BITS ==> !Matches(lens, i, code_buffer)
      modifies this`num_bits, this`code_buffer, this`at
      ensures Valid()
      ensures r == NaiveDecode(lens, old(code_buffer), 1)
      ensures r >= 0 ==> at == old(at) + lens[r]
    {
      hide Peek, Rev, EndCode, FirstCode, NaiveDecode, Matches, Slot;
      var k := ReverseWindow();
      var s := SlowLength(t.maxcode, k, lens, code_buffer);
      if s == 16 {
        NoCodeAbove(lens, code_buffer);
        return -1;
      }
      SlowSymbol(lens, code_buffer, s);
      var b := Shr(k, 16 - s) - t.firstcode[s] + t.firstsymbol[s];
      r := t.value[b];
      Consume(s);
    }

    method ReverseWindow() returns (k: nat)
      ensures k == Rev(code_buffer, WINDOW)
    {
      BitReverseIsRev(code_buffer, WINDOW);
      k := BitReverse(code_buffer, 16);
    }

    /** The first length above the fast ones whose bound exceeds the window `k`, 16 if none does. */
    method SlowLength(maxcode: array<uint32>, k: nat, ghost lens: seq<nat>, ghost w: nat) returns (s: nat)
      requires maxcode.Length == 17 && maxcode[16] == 0x10000 && k == Rev(w, WINDOW)
      requires forall s {:trigger maxcode[s]} :: FAST_BITS < s < 16 ==> maxcode[s] == Shl(EndCode(lens, s), WINDOW - s)
      ensures FAST_BITS < s <= 16
      ensures forall u :: FAST_BITS < u < s ==> Rev(w, u) >= EndCode(lens, u)
      ensures s < 16 ==> Rev(w, s) < EndCode(lens, s) && Shr(k, WINDOW - s) == Rev(w, s)
    {
      hide EndCode, Shl, Shr, Rev;
      s := FAST_BITS + 1;
      MaxcodeTest(w, EndCode(lens, s), s, k, WINDOW);
      while k >= maxcode[s]
        invariant FAST_BITS < s <= 16 && k < 0x1_0000
        invariant forall u :: FAST_BITS < u < s ==> Rev(w, u) >= EndCode(lens, u)
        invariant k < Shl(EndCode(lens, s), WINDOW - s) <==> Rev(w, s) < EndCode(lens, s)
        invariant Shr(k, WINDOW - s) == Rev(w, s)
        decreases 16 - s
      {
        s := s + 1;
        MaxcodeTest(w, EndCode(lens, s), s, k, WINDOW);
      }
    }

    /** The next symbol of the code `lens` that `t` holds. */
    method ZHuffmanDecode(t: ZHuffman, ghost lens: seq<nat>) returns (r: int)
      requires Valid() && t.Valid() && t.Holds(lens)
      modifies this`pos, this`fetched, this`num_bits, this`code_buffer, this`at
      ensures Valid()
      ensures r == NextSymbol(lens, zbuffer, old(at))
      ensures r >= 0 ==> at == old(at) + lens[r]
    {
      if num_bits < 16 { FillBits(); }
      LowBound(code_buffer, FAST_BITS);
      Pow2Values(FAST_BITS);
      var b := t.fast[Low(code_buffer, FAST_BITS)];
      NaiveWindow(lens, zbuffer, at, num_bits, 15, 1);
      if b != 0 {
        ghost var i := FastHit(lens, code_buffer, b);
        Consume(b / 512);
        return b % 512;
      }
      FastMiss(lens, code_buffer);
      r := DecodeSlowpath(t, lens);
    }

    /** Copies `len` bytes from `dist` back, one by one; the source special-cases runs. */
    method CopyBytes(len: nat, dist: nat)
      requires len > 0 && 1 <= dist <= |zout|
      modifies this`zout
      ensures zout == Copy(old(zout), len, dist)
    {
      var left := len;
      if dist == 1 {
        var v := zout[|zout| - 1];
        while left > 0
          invariant zout != [] && zout[|zout| - 1] == v
          invariant Copy(zout, left, dist) == Copy(old(zout), len, dist)
        {
          zout := zout + [v];
          left := left - 1;
        }
      } else {
        var p := |zout| - dist;
        while left > 0
          invariant p == |zout| - dist && dist <= |zout|
          invariant Copy(zout, left, dist) == Copy(old(zout), len, dist)
        {
          zout := zout + [zout[p]];
          p := p + 1;
          left := left - 1;
        }
      }
    }

    /** The length of a copy with length symbol `257 + l`. */
    method ReadLength(l: nat) returns (len: nat)
      requires Valid()
      modifies this`pos, this`fetched, this`num_bits, this`code_buffer, this`at
      ensures Valid() && (at, len) == LengthAt(zbuffer, old(at), l)
    {
      len := LengthBase(l);
      if LengthExtra(l) != 0 {
        var k := ZReceive(LengthExtra(l));
        len := len + k;
      }
    }

    method ReadDist(d: nat) returns (dist: nat)
      requires Valid()
      modifies this`pos, this`fetched, this`num_bits, this`code_buffer, this`at
      ensures Valid() && (at, dist) == DistAt(zbuffer, old(at), d)
    {
      dist := DistBase(d);
      if DistExtra(d) != 0 {
        var k := ZReceive(DistExtra(d));
        dist := dist + k;
      }
    }

    /** A literal, a copy, or the end of the block. */
    method ParseToken(ghost lens: seq<nat>, ghost dists: seq<nat>) returns (status: TokenStatus)
      requires Valid() && Shape() && Tables(lens, dists)
      modifies this`pos, this`fetched, this`num_bits, this`code_buffer, this`at, this`zout
      ensures Valid()
      ensures OneToken(lens, dists, zbuffer, old(at), old(zout)) == StepOf(status, at, zout)
    {
      hide Peek, StreamBit, ByteAt, NextSymbol, OneCopy;
      var z := ZHuffmanDecode(z_length, lens);
      if z < 256 {
        if z < 0 {
          status := TokenBad;
        } else {
          zout := zout + [z];
          status := TokenMore;
        }
      } else if z == 256 {
        status := TokenEnd;
      } else {
        status := ParseCopy(z - 257, dists);
      }
    }

    /** The rest of a copy whose length symbol is `257 + l`. */
    method ParseCopy(l: nat, ghost dists: seq<nat>) returns (status: TokenStatus)
      requires Valid() && Shape() && z_distance.Holds(dists)
      modifies this`pos, this`fetched, this`num_bits, this`code_buffer, this`at, this`zout
      ensures Valid()
      ensures OneCopy(dists, zbuffer, old(at), old(zout), l) == StepOf(status, at, zout)
    {
      hide Peek, StreamBit, ByteAt, NextSymbol, LengthAt, DistAt, CopyStep;
      var len := ReadLength(l);
      var d := ZHuffmanDecode(z_distance, dists);
      if d < 0 {
        status := TokenBad;
      } else {
        var dist := ReadDist(d);
        status := CopyBack(len, dist);
      }
    }

    method CopyBack(len: nat, dist: nat) returns (status: TokenStatus)
      modifies this`zout
      ensures CopyStep(at, old(zout), len, dist) == StepOf(status, at, zout)
    {
      if |zout| < dist {
        status := TokenBad;
      } else if len == 0 {
        status := TokenMore;
      } else if dist == 0 {
        status := TokenUnwritten;
      } else {
        CopyBytes(len, dist);
        status := TokenMore;
      }
    }

    method ParseHuffmanBlock(ghost lens: seq<nat>, ghost dists: seq<nat>, fuel: nat) returns (status: Status)
      requires Valid() && Shape() && Tables(lens, dists)
      modifies this`pos, this`fetched, this`num_bits, this`code_buffer, this`at, this`zout
      ensures Valid()
      ensures CompressedBlock(lens, dists, zbuffer, old(at), old(zout), fuel) == OutcomeOf(status, at, zout)
      ensures fuel >= Enough(zbuffer, old(at)) ==>
                AllTokens(lens, dists, zbuffer, old(at), old(zout)) == OutcomeOf(status, at, zout)
    {
      hide OneToken, Peek, StreamBit, ByteAt, Tables, AllTokens;
      var left := fuel;
      var t := TokenMore;
      while left > 0 && t == TokenMore
        invariant Valid()
        invariant CompressedBlock(lens, dists, zbuffer, old(at), old(zout), fuel)
               == match t
                  case TokenMore => CompressedBlock(lens, dists, zbuffer, at, zout, left)
                  case TokenEnd => Done(at, zout)
                  case TokenBad => Corrupt
                  case TokenUnwritten => Unspecified
        decreases left
      {
        t := ParseToken(lens, dists);
        left := left - 1;
      }
      status := match t
        case TokenMore => NoFuel
        case TokenEnd => Ok
        case TokenBad => Err
        case TokenUnwritten => Undefined;
      if fuel >= Enough(zbuffer, old(at)) { TokensDecide(lens, dists, zbuffer, old(at), old(zout), fuel); }
    }

    method ParseUncompressedBlock() returns (status: Status)
      requires Valid()
      modifies this`pos, this`fetched, this`num_bits, this`code_buffer, this`at, this`zout
      ensures Valid()
      ensures StoredBlock(zbuffer, old(at), old(zout)) == OutcomeOf(status, at, zout)
    {
      ghost var q := (at + 7) / 8;
      AlignToByte();
      var header := ReadAligned4(q);
      var len: nat := header[1] as nat * 256 + header[0];
      var nlen: nat := header[3] as nat * 256 + header[2];
      if nlen != 0xFFFF - len { // len ^ 0xffff
        status := Err;
      } else if pos + len > |zbuffer| {
        status := Err;
      } else {
        zout := zout + zbuffer[pos..pos + len];
        pos := pos + len;
        fetched := fetched + len;
        at := at + 8 * len;
        status := Ok;
      }
    }

    method AlignToByte()
      requires Valid()
      modifies this`pos, this`fetched, this`num_bits, this`code_buffer, this`at
      ensures Valid() && at == 8 * ((old(at) + 7) / 8)
    {
      hide Peek;
      Aligned(at, num_bits, fetched);
      if num_bits % 8 != 0 {
        var skipped := ZReceive(num_bits % 8);
      }
    }

    /** Four bytes from a byte boundary: first what is buffered, then from the input. */
    method ReadAligned4(ghost q: nat) returns (header: seq<byte>)
      requires Valid() && at == 8 * q
      modifies this`pos, this`fetched, this`num_bits, this`code_buffer, this`at
      ensures Valid() && at == 8 * (q + 4) && num_bits == 0
      ensures header == [ByteAt(zbuffer, q), ByteAt(zbuffer, q + 1), ByteAt(zbuffer, q + 2), ByteAt(zbuffer, q + 3)]
    {
      hide StreamBit, ByteAt;
      header := [];
      while num_bits > 0
        invariant Valid() && |header| <= 4 && at == 8 * (q + |header|) && num_bits <= 8 * (4 - |header|)
        invariant forall i :: 0 <= i < |header| ==> header[i] == ByteAt(zbuffer, q + i)
        decreases num_bits
      {
        var b := TakeBufferedByte(q + |header|);
        header := header + [b];
      }
      while |header| < 4
        invariant Valid() && |header| <= 4 && at == 8 * (q + |header|) && num_bits == 0
        invariant forall i :: 0 <= i < |header| ==> header[i] == ByteAt(zbuffer, q + i)
      {
        var b := ZGet8();
        at := at + 8;
        header := header + [b];
      }
    }

    method TakeBufferedByte(ghost k: nat) returns (b: byte)
      requires Valid() && at == 8 * k && num_bits >= 8
      modifies this`num_bits, this`code_buffer, this`at
      ensures Valid() && at == old(at) + 8 && num_bits == old(num_bits) - 8
      ensures b == ByteAt(zbuffer, k)
    {
      PeekLow(zbuffer, at, num_bits, 8);
      PeekByte(zbuffer, k, 8);
      b := Low(code_buffer, 8);
      Consume(8);
    }

    method ReadCodeLengthSizes(hclen: nat) returns (sizes: seq<nat>)
      requires Valid() && hclen <= 19
      modifies this`pos, this`fetched, this`num_bits, this`code_buffer, this`at
      ensures Valid() && at == old(at) + 3 * hclen
      ensures sizes == CodeLengthSizes(zbuffer, old(at), hclen)
    {
      hide Peek, StreamBit, ByteAt;
      sizes := Fill(0, 19);
      for i := 0 to hclen
        invariant Valid() && at == old(at) + 3 * i
        invariant sizes == CodeLengthSizes(zbuffer, old(at), i)
      {
        var s := ZReceive(3);
        sizes := sizes[DEZIGZAG[i] := s];
      }
    }

    /** How often code-length symbol `c` repeats, from its extra bits. */
    method ReadRepeat(c: nat) returns (n: nat)
      requires Valid() && 16 <= c < 19
      modifies this`pos, this`fetched, this`num_bits, this`code_buffer, this`at
      ensures Valid() && at == old(at) + RepeatBits(c)
      ensures n == RepeatBase(c) + Peek(zbuffer, old(at), RepeatBits(c))
    {
      n := ZReceive(RepeatBits(c));
      n := n + RepeatBase(c);
    }

    /** One symbol of the run-length coded code lengths, appended to `acc`. */
    method ReadSomeLengths(t: ZHuffman, ghost cl: seq<nat>, total: nat, acc: seq<nat>)
      returns (ok: bool, more: seq<nat>)
      requires Valid() && t.Valid() && |cl| == 19 && t.Holds(cl)
      requires |acc| < total && forall i :: 0 <= i < |acc| ==> acc[i] <= 15
      modifies this`pos, this`fetched, this`num_bits, this`code_buffer, this`at
      ensures Valid()
      ensures |acc| < |more| <= total && forall i :: 0 <= i < |more| ==> more[i] <= 15
      ensures ReadLengths(cl, zbuffer, old(at), total, acc)
           == if ok then ReadLengths(cl, zbuffer, at, total, more) else BadLengths
    {
      hide Peek, StreamBit, ByteAt, NextSymbol;
      more := acc + [0];
      var c := ZHuffmanDecode(t, cl);
      if c < 0 {
        ok := false;
      } else if c < 16 {
        ok, more := true, acc + [c];
      } else {
        var n := ReadRepeat(c);
        if (c == 16 && acc == []) || total - |acc| < n {
          ok := false;
        } else {
          var fill := if c == 16 then acc[|acc| - 1] else 0;
          ok, more := true, acc + Fill(fill, n);
        }
      }
    }

    method ReadAllLengths(t: ZHuffman, ghost cl: seq<nat>, total: nat) returns (ok: bool, lens: seq<nat>)
      requires Valid() && t.Valid() && |cl| == 19 && t.Holds(cl)
      modifies this`pos, this`fetched, this`num_bits, this`code_buffer, this`at
      ensures Valid()
      ensures ReadLengths(cl, zbuffer, old(at), total, []) == if ok then Lengths(at, lens) else BadLengths
    {
      hide Peek, StreamBit, ByteAt, NextSymbol;
      ok, lens := true, [];
      while ok && |lens| < total
        invariant Valid()
        invariant |lens| <= total && forall i :: 0 <= i < |lens| ==> lens[i] <= 15
        invariant ReadLengths(cl, zbuffer, old(at), total, [])
               == if ok then ReadLengths(cl, zbuffer, at, total, lens) else BadLengths
        decreases total - |lens|
      {
        ok, lens := ReadSomeLengths(t, cl, total, lens);
      }
    }

    method BuildTables(lens: seq<nat>, dists: seq<nat>) returns (ok: bool)
      requires Shape() && ValidLens(lens) && ValidLens(dists)
      modifies z_length.Repr, z_distance.Repr
      ensures ok <==> Accepted(lens) && Accepted(dists)
      ensures ok ==> Tables(lens, dists)
    {
      ok := z_length.Build(lens);
      if ok {
        ok := z_distance.Build(dists);
      }
    }

    /** The codes of a dynamic block. */
    method ComputeHuffmanCodes() returns (ok: bool, ghost lens: seq<nat>, ghost dists: seq<nat>)
      requires Valid() && Shape()
      modifies this`pos, this`fetched, this`num_bits, this`code_buffer, this`at, z_length.Repr, z_distance.Repr
      ensures Valid()
      ensures DynamicCodes(zbuffer, old(at)) == if ok then Codes(at, lens, dists) else BadCodes
      ensures ok ==> Tables(lens, dists)
    {
      hide Peek, StreamBit, ByteAt, CodeLengthSizes, ReadLengths;
      PeekBound(zbuffer, at, 5);
      PeekBound(zbuffer, at + 5, 5);
      PeekBound(zbuffer, at + 10, 4);
      assert Pow2(5) == 32 && Pow2(4) == 16;
      var hlit := ZReceive(5);
      hlit := hlit + 257;
      var hdist := ZReceive(5);
      hdist := hdist + 1;
      var hclen := ZReceive(4);
      hclen := hclen + 4;
      var cl := ReadCodeLengthSizes(hclen);
      ok, lens, dists := BuildDynamic(cl, hlit, hdist);
    }

    /** The code lengths read with the code `cl`, and the tables built from them. */
    method BuildDynamic(cl: seq<nat>, hlit: nat, hdist: nat)
      returns (ok: bool, ghost lens: seq<nat>, ghost dists: seq<nat>)
      requires Valid() && Shape() && |cl| == 19 && hlit <= 288 && hdist <= 32
      requires forall i :: 0 <= i < 19 ==> cl[i] < 8
      modifies this`pos, this`fetched, this`num_bits, this`code_buffer, this`at, z_length.Repr, z_distance.Repr
      ensures Valid()
      ensures var r := ReadLengths(cl, zbuffer, old(at), hlit + hdist, []);
              if ok then Accepted(cl) && r == Lengths(at, lens + dists) && |lens| == hlit && Accepted(lens)
                  && Accepted(dists)
              else !Accepted(cl) || r.BadLengths? || !Accepted(r.lens[..hlit]) || !Accepted(r.lens[hlit..])
      ensures ok ==> Tables(lens, dists)
    {
      hide Peek, StreamBit, ByteAt, ReadLengths;
      lens, dists := [], [];
      var t := new ZHuffman();
      ok := t.Build(cl);
      if ok {
        var all: seq<nat>;
        ok, all := ReadAllLengths(t, cl, hlit + hdist);
        if ok {
          ok := BuildTables(all[..hlit], all[hlit..]);
          lens, dists := all[..hlit], all[hlit..];
          assert lens + dists == all;
        }
      }
    }

    /** One block after its three header bits. */
    method ParseBlock(kind: nat, fuel: nat) returns (status: Status)
      requires Valid() && Shape()
      modifies this`pos, this`fetched, this`num_bits, this`code_buffer, this`at, this`zout, z_length.Repr,
               z_distance.Repr
      ensures Valid()
      ensures OneBlock(zbuffer, old(at), old(zout), kind, fuel) == OutcomeOf(status, at, zout)
    {
      hide Peek, StreamBit, ByteAt, CompressedBlock, DynamicCodes, StoredBlock;
      if kind == 0 {
        status := ParseUncompressedBlock();
      } else if kind == 1 {
        FixedAccepted();
        var ok := BuildTables(FIXED_LENS, FIXED_DISTS);
        status := ParseHuffmanBlock(FIXED_LENS, FIXED_DISTS, fuel);
      } else if kind == 2 {
        var ok, lens, dists := ComputeHuffmanCodes();
        if ok {
          status := ParseHuffmanBlock(lens, dists, fuel);
        } else {
          status := Err;
        }
      } else {
        status := Err;
      }
    }

    method ParseBlocks(fuel: nat) returns (status: Status)
      requires Valid() && Shape()
      modifies this`pos, this`fetched, this`num_bits, this`code_buffer, this`at, this`zout, z_length.Repr,
               z_distance.Repr
      ensures Valid()
      ensures Blocks(zbuffer, old(at), old(zout), fuel) == OutcomeOf(status, at, zout)
      ensures fuel >= Enough(zbuffer, old(at)) ==>
                AllBlocks(zbuffer, old(at), old(zout)) == OutcomeOf(status, at, zout)
    {
      hide Peek, StreamBit, ByteAt, OneBlock, AllBlocks;
      status := NoFuel;
      var left := fuel;
      var again := true;
      while again && left > 0
        invariant Valid() && (again ==> status == NoFuel)
        invariant Blocks(zbuffer, old(at), old(zout), fuel)
               == if again then Blocks(zbuffer, at, zout, left) else OutcomeOf(status, at, zout)
        decreases left
      {
        var final := ZReceive(1);
        var kind := ZReceive(2);
        status := ParseBlock(kind, left);
        again := status == Ok && final != 1;
        if again { status := NoFuel; }
        left := left - 1;
      }
      if fuel >= Enough(zbuffer, old(at)) { BlocksDecide(zbuffer, old(at), old(zout), fuel); }
    }

    method ParseZlibHeader() returns (ok: bool)
      requires fetched == 0 && pos == 0
      modifies this`pos, this`fetched
      ensures fetched == 2 && pos == if fetched < |zbuffer| then fetched else |zbuffer|
      ensures ok <==> HeaderOk(ByteAt(zbuffer, 0), ByteAt(zbuffer, 1))
    {
      hide ByteAt;
      var cmf: nat := ZGet8();
      var flg: nat := ZGet8();
      ok := (cmf * 256 + flg) % 31 == 0 && flg / 32 % 2 == 0 && cmf % 16 == 8;
    }

    /** Inflates the whole buffer. */
    method ParseZlib(header: bool, fuel: nat) returns (status: Status)
      requires Valid() && Shape() && fetched == 0 && num_bits == 0 && zout == []
      modifies this`pos, this`fetched, this`num_bits, this`code_buffer, this`at, this`zout, z_length.Repr,
               z_distance.Repr
      ensures Inflate(zbuffer, header, fuel) == OutcomeOf(status, at, zout)
      ensures fuel > 8 * |zbuffer| ==> InflateAll(zbuffer, header) == OutcomeOf(status, at, zout)
    {
      hide StreamBit, ByteAt, HeaderOk, Blocks, InflateAll;
      var ok := true;
      if header {
        ok := ParseZlibHeader();
      }
      if ok {
        num_bits, code_buffer, at := 0, 0, 8 * fetched;
        status := ParseBlocks(fuel);
      } else {
        status := Err;
      }
      assert Inflate(zbuffer, header, fuel) == OutcomeOf(status, at, zout);
      if fuel > 8 * |zbuffer| { FuelDecides(zbuffer, header, fuel); }
    }
  }

  /**
   The decoder as its callers see it; the bytes count only when the status is `Ok`,
   and then they are what the stream stands for. `NoFuel` stands for decoding without
   end.
   */
  method ZlibDecode(buffer: seq<byte>, header: bool) returns (status: Status, out: seq<byte>)
    ensures exists end: nat :: InflateAll(buffer, header) == OutcomeOf(status, end, out)
    ensures status == Ok <==>
            (header ==> F.ZlibHead(ByteAt(buffer, 0), ByteAt(buffer, 1)))
            && exists blocks, end, result :: F.StreamAt(buffer, F.StartOf(header), [], blocks, end, result)
    ensures forall blocks, end, result ::
              status == Ok && F.StreamAt(buffer, F.StartOf(header), [], blocks, end, result) ==> result == out
  {
    hide Inflate, InflateAll;
    var a := new ZBuf(buffer);
    status := a.ParseZlib(header, 8 * |buffer| + 1);
    out := a.zout;
    assert InflateAll(buffer, header) == OutcomeOf(status, a.at, out);
    F.Inflates(buffer, header);
  }
}
