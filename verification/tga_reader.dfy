/**
 The reader of run-length coded TGA, for every byte sequence it may be given, and
 that it reads back what the writer writes.
 */
module TgaReader {
  import opened Basics
  import opened Bits
  import opened BitStream
  import opened Raster
  import opened TgaWriter

  // ----- packets, pixel by pixel

  /** What the reader remembers between two pixels. */
  datatype Cursor = Cursor(pos: nat, count: nat, repeating: bool, raw: Pixel)

  /** Reads a packet's first byte if the last packet is used up, and a pixel unless one is repeated. */
  function Next(z: seq<byte>, comp: nat, c: Cursor): (r: Cursor)
    ensures |r.raw| == comp || |r.raw| == |c.raw|
  {
    if c.count == 0 then
      var cmd := ByteAt(z, c.pos);
      Cursor(c.pos + 1 + comp, cmd % 128, cmd >= 128, Values(z, c.pos + 1, comp))
    else if !c.repeating then Cursor(c.pos + comp, c.count - 1, false, Values(z, c.pos, comp))
    else c.(count := c.count - 1)
  }

  /** The next `n` pixels. */
  function Decode(z: seq<byte>, comp: nat, c: Cursor, n: nat): (r: seq<Pixel>)
    ensures |r| == n
    decreases n
  {
    if n == 0 then [] else var d := Next(z, comp, c); [d.raw] + Decode(z, comp, d, n - 1)
  }

  /** The cursor `n` pixels later. */
  function Later(z: seq<byte>, comp: nat, c: Cursor, n: nat): Cursor
    decreases n
  {
    if n == 0 then c else Later(z, comp, Next(z, comp, c), n - 1)
  }

  lemma DecodeStep(z: seq<byte>, comp: nat, c: Cursor, n: nat, done: seq<Pixel>)
    requires n > 0
    ensures done + Decode(z, comp, c, n)
         == done + [Next(z, comp, c).raw] + Decode(z, comp, Next(z, comp, c), n - 1)
  {
    var d := Next(z, comp, c);
    assert done + ([d.raw] + Decode(z, comp, d, n - 1)) == done + [d.raw] + Decode(z, comp, d, n - 1);
  }

  /** One turn of the reader's loop: a command if the packet is used up, and a pixel unless one repeats. */
  method ReadOne(z: seq<byte>, comp: nat, c: Cursor, read_next: bool) returns (d: Cursor)
    requires read_next ==> c.count == 0
    ensures d == Next(z, comp, c)
  {
    hide Values;
    var pos, count, repeating, read, raw := c.pos, c.count, c.repeating, read_next, c.raw;
    if count == 0 {
      var cmd := ByteAt(z, pos);
      pos := pos + 1;
      count := 1 + cmd % 128;
      repeating := cmd >= 128;
      read := true;
    } else if !repeating {
      read := true;
    }
    if read {
      raw := Values(z, pos, comp);
      pos := pos + comp;
    }
    d := Cursor(pos, count - 1, repeating, raw);
  }

  /** The reader's loop over all pixels. */
  method ReadPixels(z: seq<byte>, start: nat, comp: nat, data: array<Pixel>)
    modifies data
    ensures data[..] == Decode(z, comp, Cursor(start, 0, false, []), data.Length)
  {
    hide Decode, Next;
    ghost var all := Decode(z, comp, Cursor(start, 0, false, []), data.Length);
    var c, read_next := Cursor(start, 0, false, []), true;
    for i := 0 to data.Length
      invariant read_next ==> c.count == 0
      invariant data[..i] + Decode(z, comp, c, data.Length - i) == all
    {
      ghost var done := data[..i];
      DecodeStep(z, comp, c, data.Length - i, done);
      c := ReadOne(z, comp, c, read_next);
      read_next := false;
      data[i] := c.raw;
      assert data[..i + 1] == done + [c.raw];
    }
    assert data[..data.Length] == data[..];
    assert |Decode(z, comp, c, 0)| == 0;
  }

  // ----- the whole file

  /** `Other` stands for the branches for palettes, 16-bit colours and uncompressed data. */
  datatype Load = Loaded(width: nat, height: nat, comp: nat, pixels: seq<Pixel>) | BadFormat | TooLarge | Other

  datatype Comp = Comp(n: nat, rgb16: bool)

  function GetComp(bits: nat, grey: bool): Comp {
    if bits == 8 then Comp(1, false)
    else if bits == 16 && grey then Comp(2, false)
    else if bits == 16 || bits == 15 then Comp(3, true)
    else if bits == 24 || bits == 32 then Comp(bits / 8, false)
    else Comp(0, false)
  }

  function Get16(z: seq<byte>, pos: nat): nat {
    ByteAt(z, pos) + 256 * ByteAt(z, pos + 1)
  }

  /** The pixels as the reader leaves them, for a buffer as the file has it. */
  function Finished(stored: seq<Pixel>, w: nat, h: nat, inverted: bool): seq<Pixel>
    requires |stored| == w * h
  {
    SwapAll(if inverted then Concat(Reversed(Split(stored, w, h))) else stored)
  }

  function LoadResult(z: seq<byte>): Load {
    var rle := ByteAt(z, 2) >= 8;
    var kind := if rle then ByteAt(z, 2) - 8 else ByteAt(z, 2);
    var comp := GetComp(ByteAt(z, 16), kind == 3);
    var w, h := Get16(z, 12), Get16(z, 14);
    if ByteAt(z, 1) != 0 then Other
    else if comp.n == 0 then BadFormat
    else if !SizesValid(w, h, comp.n, 0) then TooLarge
    else if !rle || comp.rgb16 then Other
    else
      var stored := Decode(z, comp.n, Cursor(18 + ByteAt(z, 0), 0, false, []), w * h);
      Loaded(w, h, comp.n, Finished(stored, w, h, ByteAt(z, 17) / 32 % 2 == 0))
  }

  /** Exchanges red and blue in place. */
  method SwapInPlace(data: array<Pixel>)
    modifies data
    ensures data[..] == SwapAll(old(data[..]))
  {
    for i := 0 to data.Length
      invariant forall k :: 0 <= k < data.Length ==> data[k] == if k < i then Swapped(old(data[k])) else old(data[k])
    {
      data[i] := Swapped(data[i]);
    }
  }

  method LoadTga(z: seq<byte>) returns (r: Load)
    ensures r == LoadResult(z)
  {
    hide Decode, Finished, ByteAt;
    var offset: nat := ByteAt(z, 0);
    var indexed, image_type := ByteAt(z, 1), ByteAt(z, 2);
    var w, h, bits, descriptor := Get16(z, 12), Get16(z, 14), ByteAt(z, 16), ByteAt(z, 17);
    var rle := false;
    if image_type >= 8 {
      image_type := image_type - 8;
      rle := true;
    }
    var inverted := 1 - descriptor / 32 % 2;
    if indexed != 0 { return Other; }
    var comp := GetComp(bits, image_type == 3);
    if comp.n == 0 { return BadFormat; }
    if !SizesValid(w, h, comp.n, 0) { return TooLarge; }
    if !rle || comp.rgb16 { return Other; }
    var data := new Pixel[w * h](_ => []);
    ReadPixels(z, 18 + offset, comp.n, data);
    ghost var stored := data[..];
    Finish(data, w, h, inverted != 0);
    r := Loaded(w, h, comp.n, data[..]);
  }

  method Finish(data: array<Pixel>, w: nat, h: nat, inverted: bool)
    requires data.Length == w * h
    modifies data
    ensures data[..] == Finished(old(data[..]), w, h, inverted)
  {
    if inverted {
      FlipInPlace(data, w, h);
    }
    SwapInPlace(data);
  }

  // ----- reading back what was written

  lemma {:induction false} DecodeSplit(z: seq<byte>, comp: nat, c: Cursor, m: nat, n: nat)
    ensures Decode(z, comp, c, m + n) == Decode(z, comp, c, m) + Decode(z, comp, Later(z, comp, c, m), n)
    decreases m
  {
    hide Next;
    if m > 0 { DecodeSplit(z, comp, Next(z, comp, c), m - 1, n); }
  }

  lemma {:induction false} RepeatDecodes(z: seq<byte>, comp: nat, c: Cursor)
    requires c.repeating
    ensures Decode(z, comp, c, c.count) == Fill(c.raw, c.count)
    ensures Later(z, comp, c, c.count) == c.(count := 0)
    decreases c.count
  {
    if c.count > 0 {
      RepeatDecodes(z, comp, Next(z, comp, c));
      assert Fill(c.raw, c.count) == [c.raw] + Fill(c.raw, c.count - 1);
    }
  }

  lemma {:induction false} FlatFirst(pixels: seq<Pixel>)
    requires pixels != []
    ensures Flat(pixels) == Swapped(pixels[0]) + Flat(pixels[1..])
    decreases |pixels|
  {
    hide Swapped;
    var n := |pixels| - 1;
    if n == 0 {
      assert pixels[..0] == [] && pixels[1..] == [];
    } else {
      FlatFirst(pixels[..n]);
      var middle := pixels[..n][1..];
      assert middle == pixels[1..][..n - 1];
      Associate(Swapped(pixels[0]), Flat(middle), Swapped(pixels[n]));
    }
  }

  lemma {:induction false} RawDecodes(z: seq<byte>, comp: nat, c: Cursor, pixels: seq<Pixel>)
    requires !c.repeating && c.count == |pixels| && PixelsOk(pixels, comp) && StandsAt(z, c.pos, Flat(pixels))
    ensures Decode(z, comp, c, |pixels|) == SwapAll(pixels)
    ensures Later(z, comp, c, |pixels|).pos == c.pos + |Flat(pixels)| && Later(z, comp, c, |pixels|).count == 0
    decreases |pixels|
  {
    hide Swapped, SwapAll, Flat, StandsAt, Values, Decode, Later;
    if pixels == [] {
      FlatNone();
      NoneNext(z, comp, c);
    } else {
      FlatFirst(pixels);
      assert |pixels[0]| == comp && PixelsOk(pixels[1..], comp);
      hide PixelsOk;
      PixelStands(z, c.pos, pixels[0], Flat(pixels[1..]));
      RawDecodes(z, comp, Next(z, comp, c), pixels[1..]);
      SwapFirst(pixels);
      OneNext(z, comp, c, |pixels|);
    }
  }

  lemma NoneNext(z: seq<byte>, comp: nat, c: Cursor)
    ensures Decode(z, comp, c, 0) == [] && Later(z, comp, c, 0) == c
  {
  }

  lemma OneNext(z: seq<byte>, comp: nat, c: Cursor, n: nat)
    requires n > 0
    ensures Decode(z, comp, c, n) == [Next(z, comp, c).raw] + Decode(z, comp, Next(z, comp, c), n - 1)
    ensures Later(z, comp, c, n) == Later(z, comp, Next(z, comp, c), n - 1)
  {
    hide Next;
  }

  lemma FlatNone()
    ensures Flat([]) == [] && SwapAll([]) == []
  {
  }

  lemma SwapFirst(pixels: seq<Pixel>)
    requires pixels != []
    ensures SwapAll(pixels) == [Swapped(pixels[0])] + SwapAll(pixels[1..])
  {
  }

  lemma PixelStands(z: seq<byte>, pos: nat, d: Pixel, rest: seq<byte>)
    requires StandsAt(z, pos, Swapped(d) + rest)
    ensures Values(z, pos, |d|) == Swapped(d) && StandsAt(z, pos + |d|, rest)
  {
    hide Swapped, StandsAt, Values;
    StandsSplit(z, pos, Swapped(d), rest);
    ValuesStand(z, pos, Swapped(d));
  }

  lemma ValuesStand(z: seq<byte>, pos: nat, bytes: seq<byte>)
    requires StandsAt(z, pos, bytes)
    ensures Values(z, pos, |bytes|) == bytes
  {
    hide Values;
    ValuesSlice(z, pos, |bytes|);
  }

  /** A packet's bytes decode to its pixels, and leave the reader at the next packet. */
  lemma PacketDecodes(z: seq<byte>, comp: nat, c: Cursor, p: Packet)
    requires c.count == 0 && PacketOk(p, comp) && StandsAt(z, c.pos, PacketBytes(p, comp))
    ensures var n := |PacketPixels(p)|;
            && Decode(z, comp, c, n) == SwapAll(PacketPixels(p))
            && Later(z, comp, c, n).count == 0 && Later(z, comp, c, n).pos == c.pos + |PacketBytes(p, comp)|
  {
    hide Swapped, StandsAt, Decode, Later, Flat;
    match p {
      case Run(len, value) => RunDecodes(z, comp, c, len, value);
      case Raw(pixels) => RawPacketDecodes(z, comp, c, pixels);
    }
  }

  lemma RunDecodes(z: seq<byte>, comp: nat, c: Cursor, len: nat, value: Pixel)
    requires c.count == 0 && PacketOk(Run(len, value), comp) && StandsAt(z, c.pos, [len + 127] + Swapped(value))
    ensures Decode(z, comp, c, len) == SwapAll(Fill(value, len))
    ensures Later(z, comp, c, len).count == 0 && Later(z, comp, c, len).pos == c.pos + 1 + |value|
  {
    hide Swapped, StandsAt, Values;
    CommandStands(z, c.pos, len + 127, Swapped(value));
    assert Swapped(value) + [] == Swapped(value);
    PixelStands(z, c.pos + 1, value, []);
    RepeatDecodes(z, comp, Next(z, comp, c));
    OneNext(z, comp, c, len);
    assert SwapAll(Fill(value, len)) == [Swapped(value)] + Fill(Swapped(value), len - 1);
  }

  lemma RawPacketDecodes(z: seq<byte>, comp: nat, c: Cursor, pixels: seq<Pixel>)
    requires c.count == 0 && PacketOk(Raw(pixels), comp) && StandsAt(z, c.pos, [|pixels| - 1] + Flat(pixels))
    ensures Decode(z, comp, c, |pixels|) == SwapAll(pixels)
    ensures Later(z, comp, c, |pixels|).count == 0 && Later(z, comp, c, |pixels|).pos == c.pos + 1 + |Flat(pixels)|
  {
    hide Swapped, StandsAt, Values, SwapAll, Flat;
    CommandStands(z, c.pos, |pixels| - 1, Flat(pixels));
    FlatFirst(pixels);
    PixelStands(z, c.pos + 1, pixels[0], Flat(pixels[1..]));
    RawDecodes(z, comp, Next(z, comp, c), pixels[1..]);
    SwapFirst(pixels);
  }

  lemma CommandStands(z: seq<byte>, pos: nat, cmd: byte, rest: seq<byte>)
    requires StandsAt(z, pos, [cmd] + rest)
    ensures ByteAt(z, pos) == cmd && StandsAt(z, pos + 1, rest)
  {
    StandsSplit(z, pos, [cmd], rest);
    assert z[pos] == z[pos..pos + 1][0];
  }

  /** Packets decode to the pixels that they stand for. */
  lemma {:induction false} PacketsDecode(z: seq<byte>, comp: nat, c: Cursor, ps: seq<Packet>)
    requires c.count == 0 && PacketsOk(ps, comp) && StandsAt(z, c.pos, Bytes(ps, comp))
    ensures Decode(z, comp, c, |Expand(ps)|) == SwapAll(Expand(ps))
    decreases |ps|
  {
    hide PacketPixels, PacketBytes, Decode, StandsAt, SwapAll, Later, PacketOk, PacketsOk, Expand, Bytes;
    if ps == [] {
      NoneDecode(z, comp, c);
    } else {
      var first, rest := PacketPixels(ps[0]), Expand(ps[1..]);
      PacketsHead(ps, comp);
      StandsSplit(z, c.pos, PacketBytes(ps[0], comp), Bytes(ps[1..], comp));
      PacketDecodes(z, comp, c, ps[0]);
      PacketsDecode(z, comp, Later(z, comp, c, |first|), ps[1..]);
      DecodeSplit(z, comp, c, |first|, |rest|);
      SwapAppend(first, rest);
    }
  }

  lemma NoneDecode(z: seq<byte>, comp: nat, c: Cursor)
    ensures Decode(z, comp, c, |Expand([])|) == SwapAll(Expand([]))
  {
  }

  lemma SwapAppend(a: seq<Pixel>, b: seq<Pixel>)
    ensures SwapAll(a + b) == SwapAll(a) + SwapAll(b)
  {
  }

  // ----- images

  function SwapRows(rows: seq<seq<Pixel>>): seq<seq<Pixel>> {
    seq(|rows|, j requires 0 <= j < |rows| => SwapAll(rows[j]))
  }

  lemma {:induction false} SwapConcat(rows: seq<seq<Pixel>>)
    ensures SwapAll(Concat(rows)) == Concat(SwapRows(rows))
  {
    if rows != [] {
      SwapConcat(rows[1..]);
      SwapAppend(rows[0], Concat(rows[1..]));
      assert SwapRows(rows)[1..] == SwapRows(rows[1..]);
    }
  }

  lemma SwapTwice(rows: seq<seq<Pixel>>)
    ensures SwapRows(SwapRows(rows)) == rows
  {
    forall j | 0 <= j < |rows| ensures SwapAll(SwapAll(rows[j])) == rows[j] {
      forall i | 0 <= i < |rows[j]| ensures Swapped(Swapped(rows[j][i])) == rows[j][i] {}
    }
  }

  /** Storing rows and finishing them turns the image upside down, and gives every pixel its colours back. */
  lemma FinishedRows(order: seq<seq<Pixel>>, w: nat)
    requires Wide(order, w)
    ensures |SwapAll(Concat(order))| == w * |order|
    ensures Finished(SwapAll(Concat(order)), w, |order|, true) == Concat(Reversed(order))
  {
    hide Concat, SwapAll, Split;
    var stored := SwapRows(order);
    assert Wide(stored, w);
    SwapConcat(order);
    SplitConcat(stored, w);
    SwapConcat(Reversed(stored));
    assert SwapRows(Reversed(stored)) == Reversed(order) by {
      SwapTwice(order);
      hide SwapAll;
      assert SwapRows(Reversed(stored)) == Reversed(SwapRows(stored));
    }
  }

  lemma SwapAllTwice(pixels: seq<Pixel>)
    ensures SwapAll(SwapAll(pixels)) == pixels
  {
    forall i | 0 <= i < |pixels| ensures Swapped(Swapped(pixels[i])) == pixels[i] {}
  }

  /** The depth in byte 16 and the kind in byte 2 of a file with `comp` components. */
  predicate DepthIs(z: seq<byte>, comp: nat) {
    match ByteAt(z, 16)
    case 8 => comp == 1
    case 16 => comp == 2 && ByteAt(z, 2) == 11
    case 24 => comp == 3
    case 32 => comp == 4
    case _ => false
  }

  /**
   Any run-length coded file without a palette: behind an id of any length, packets of
   any sizes for its rows, which start at the top if bit 5 of byte 17 is set and at the
   bottom if not.
   */
  lemma FileLoads(z: seq<byte>, rows: seq<seq<Pixel>>, w: nat, h: nat, comp: nat, ps: seq<Packet>)
    requires ByteAt(z, 1) == 0 && ByteAt(z, 2) >= 8 && DepthIs(z, comp)
    requires w == ByteAt(z, 12) + 256 * ByteAt(z, 13) && h == ByteAt(z, 14) + 256 * ByteAt(z, 15)
    requires w * h * comp <= 0x7FFF_FFFF && |rows| == h && Wide(rows, w)
    requires PacketsOk(ps, comp) && Expand(ps) == Concat(rows) && StandsAt(z, 18 + ByteAt(z, 0), Bytes(ps, comp))
    ensures LoadResult(z) == Loaded(w, h, comp, Concat(if Bit(ByteAt(z, 17), 5) then rows else Reversed(rows)))
  {
    Bit5(ByteAt(z, 17));
    hide Decode, Bytes, Expand, Concat, PacketsOk, SwapAll, StandsAt, Bit, ByteAt, DepthIs, LoadResult, Finished, Wide;
    Loads(z, w, h, comp);
    ConcatLength(rows, w);
    PacketsDecode(z, comp, Cursor(18 + ByteAt(z, 0), 0, false, []), ps);
    FinishedRows(rows, w);
    FinishedInOrder(Concat(rows), w, h);
  }

  lemma FinishedInOrder(pixels: seq<Pixel>, w: nat, h: nat)
    requires |pixels| == w * h
    ensures |SwapAll(pixels)| == w * h && Finished(SwapAll(pixels), w, h, false) == pixels
  {
    hide SwapAll;
    SwapAllTwice(pixels);
  }

  lemma Loads(z: seq<byte>, w: nat, h: nat, comp: nat)
    requires ByteAt(z, 1) == 0 && ByteAt(z, 2) >= 8 && DepthIs(z, comp) && w * h * comp <= 0x7FFF_FFFF
    requires w == ByteAt(z, 12) + 256 * ByteAt(z, 13) && h == ByteAt(z, 14) + 256 * ByteAt(z, 15)
    ensures var stored := Decode(z, comp, Cursor(18 + ByteAt(z, 0), 0, false, []), w * h);
            LoadResult(z) == Loaded(w, h, comp, Finished(stored, w, h, ByteAt(z, 17) / 32 % 2 == 0))
  {
    assert GetComp(ByteAt(z, 16), ByteAt(z, 2) - 8 == 3) == Comp(comp, false);
    FullSize(w, h, comp);
    assert SizesValid(w, h, comp, 0) && w == Get16(z, 12) && h == Get16(z, 14);
    hide Decode, Finished, ByteAt, GetComp, SizesValid, Get16;
  }

  /** A depth that there is not is refused, and a size that does not fit an `int`; the other files are not modelled. */
  lemma WhichFilesLoad(z: seq<byte>)
    ensures LoadResult(z) == BadFormat <==> ByteAt(z, 1) == 0 && ByteAt(z, 16) !in {8, 15, 16, 24, 32}
    ensures LoadResult(z).Loaded? ==> ByteAt(z, 1) == 0 && ByteAt(z, 2) >= 8 && DepthIs(z, LoadResult(z).comp)
    ensures LoadResult(z) == TooLarge ==>
              ByteAt(z, 1) == 0
              && Get16(z, 12) * Get16(z, 14) * (if ByteAt(z, 16) == 15 then 3 else 4) > 0x7FFF_FFFF
  {
    hide Decode, Finished, ByteAt;
    var w, h := Get16(z, 12), Get16(z, 14);
    var comp := GetComp(ByteAt(z, 16), (if ByteAt(z, 2) >= 8 then ByteAt(z, 2) - 8 else ByteAt(z, 2)) == 3);
    MulMono(w * h, comp.n, if ByteAt(z, 16) == 15 then 3 else 4);
  }

  /** The picture that a reader of the file sees: the image, upside down if the writer flipped it. */
  function Seen(rows: seq<seq<Pixel>>, flip: bool): seq<seq<Pixel>> {
    if flip then Reversed(rows) else rows
  }

  /**
   The writer's file is read back as the image, upside down if the writer was told
   to flip, exactly when both sides fit 16 bits and the size fits an `int`.
   */
  lemma ImageReadBack(rows: seq<seq<Pixel>>, x: nat, y: nat, comp: nat, flip: bool, out: seq<byte>)
    requires ImageOk(rows, x, y, comp) && IsFile(Order(rows, flip), x, y, comp, out)
    ensures LoadResult(out) == Loaded(x, y, comp, Concat(Seen(rows, flip))) <==>
            x < 0x1_0000 && y < 0x1_0000 && x * y * comp <= INT_MAX
  {
    hide Decode, Bytes, Expand, Concat, Finished, PacketsOk, PixelsOk, ByteAt, StandsAt, Header, SwapAll, Wide;
    hide Written;
    var packets, all, body :| Written(Order(rows, flip), comp, |Order(rows, flip)|, packets, all, body)
                              && out == Header(x, y, comp) + body;
    WrittenAll(Order(rows, flip), comp, packets, all, body);
    HeaderStands(out, x, y, comp, body);
    if x < 0x1_0000 && y < 0x1_0000 {
      FullSize(x, y, comp);
      PixelsReadBack(rows, x, y, comp, flip, all, out, x * y);
    }
  }

  /** One row of 2^16 grey pixels. */
  const WIDE: seq<seq<Pixel>> := [seq(0x1_0000, _ => [0])]

  /** Its width is stored as 0, and whatever the reader makes of the file is not this image. */
  lemma WideImageIsLost(flip: bool, out: seq<byte>)
    requires IsFile(Order(WIDE, flip), 0x1_0000, 1, 1, out)
    ensures ImageOk(WIDE, 0x1_0000, 1, 1) && Get16(out, 12) == 0
    ensures LoadResult(out) != Loaded(0x1_0000, 1, 1, Concat(Seen(WIDE, flip)))
  {
    hide Concat, LoadResult, Written, ByteAt, StandsAt, Header;
    ImageReadBack(WIDE, 0x1_0000, 1, 1, flip, out);
    var order := Order(WIDE, flip);
    var packets, all, body :| Written(order, 1, |order|, packets, all, body) && out == Header(0x1_0000, 1, 1) + body;
    HeaderStands(out, 0x1_0000, 1, 1, body);
  }

  lemma PixelsReadBack(rows: seq<seq<Pixel>>, x: nat, y: nat, comp: nat, flip: bool, all: seq<Packet>, out: seq<byte>,
                       n: nat)
    requires ImageOk(rows, x, y, comp) && n == x * y
    requires PacketsOk(all, comp) && StandsAt(out, 18, Bytes(all, comp))
    requires Expand(all) == Concat(Order(rows, flip))
    ensures Finished(Decode(out, comp, Cursor(18, 0, false, []), n), x, y, true) == Concat(Seen(rows, flip))
  {
    hide Decode, Bytes, Expand, Concat, Finished, PacketsOk, PixelsOk, SwapAll, StandsAt;
    var order := Order(rows, flip);
    assert Wide(order, x);
    ConcatLength(order, x);
    PacketsDecode(out, comp, Cursor(18, 0, false, []), all);
    FinishedRows(order, x);
    assert Reversed(order) == Seen(rows, flip);
  }

  lemma FullSize(x: nat, y: nat, comp: nat)
    requires comp >= 1
    ensures x * y <= x * y * comp
  {
  }

  lemma HeaderStands(out: seq<byte>, x: nat, y: nat, comp: nat, rest: seq<byte>)
    requires 1 <= comp <= 4 && out == Header(x, y, comp) + rest
    ensures ByteAt(out, 0) == 0 && ByteAt(out, 1) == 0 && ByteAt(out, 2) == (if comp <= 2 then 11 else 10)
    ensures Get16(out, 12) == x % 0x1_0000 && Get16(out, 14) == y % 0x1_0000
    ensures ByteAt(out, 16) == comp * 8 && ByteAt(out, 17) / 32 % 2 == 0
    ensures StandsAt(out, 18, rest)
  {
  }

  /** Writing an image and loading the file. */
  method WriteAndLoad(rows: seq<seq<Pixel>>, x: nat, y: nat, comp: nat, flip: bool) returns (r: Load)
    requires ImageOk(rows, x, y, comp)
    ensures r == Loaded(x, y, comp, Concat(Seen(rows, flip))) <==>
            x < 0x1_0000 && y < 0x1_0000 && x * y * comp <= INT_MAX
  {
    hide LoadResult;
    var out := WriteTga(rows, x, y, comp, flip);
    ImageReadBack(rows, x, y, comp, flip, out);
    r := LoadTga(out);
  }
}
