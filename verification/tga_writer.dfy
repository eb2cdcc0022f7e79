/**
 Run-length coded TGA: packets of 1 to 128 pixels, and the writer's scan of a row
 for the next one.
 */
module TgaWriter {
  import opened Basics
  import opened Bits
  import opened Raster

  /** One to four component values. */
  type Pixel = seq<byte>

  datatype Packet = Run(len: nat, value: Pixel) | Raw(pixels: seq<Pixel>)

  predicate PixelsOk(pixels: seq<Pixel>, comp: nat) {
    forall i :: 0 <= i < |pixels| ==> |pixels[i]| == comp
  }

  predicate PacketOk(p: Packet, comp: nat) {
    match p
    case Run(len, value) => 1 <= len <= 128 && |value| == comp
    case Raw(pixels) => 1 <= |pixels| <= 128 && PixelsOk(pixels, comp)
  }

  predicate PacketsOk(ps: seq<Packet>, comp: nat) {
    forall i :: 0 <= i < |ps| ==> PacketOk(ps[i], comp)
  }

  function PacketPixels(p: Packet): seq<Pixel> {
    match p
    case Run(len, value) => Fill(value, len)
    case Raw(pixels) => pixels
  }

  /** The pixels that packets stand for. */
  function Expand(ps: seq<Packet>): seq<Pixel> {
    if ps == [] then [] else PacketPixels(ps[0]) + Expand(ps[1..])
  }

  /** The file has blue before red. */
  function Swapped(d: Pixel): (r: Pixel)
    ensures |r| == |d|
  {
    if |d| < 3 then d else [d[2], d[1], d[0]] + d[3..]
  }

  function SwapAll(pixels: seq<Pixel>): (r: seq<Pixel>)
    ensures |r| == |pixels|
  {
    seq(|pixels|, i requires 0 <= i < |pixels| => Swapped(pixels[i]))
  }

  /** The bytes of pixels as the file has them. */
  function Flat(pixels: seq<Pixel>): seq<byte> {
    if pixels == [] then [] else Flat(pixels[..|pixels| - 1]) + Swapped(pixels[|pixels| - 1])
  }

  function PacketBytes(p: Packet, comp: nat): seq<byte>
    requires PacketOk(p, comp)
  {
    match p
    case Run(len, value) => [len + 127] + Swapped(value)
    case Raw(pixels) => [|pixels| - 1] + Flat(pixels)
  }

  function Bytes(ps: seq<Packet>, comp: nat): seq<byte>
    requires PacketsOk(ps, comp)
  {
    if ps == [] then []
    else
      assert PacketOk(ps[0], comp);
      PacketBytes(ps[0], comp) + Bytes(ps[1..], comp)
  }

  lemma PacketsHead(ps: seq<Packet>, comp: nat)
    requires ps != [] && PacketsOk(ps, comp)
    ensures PacketOk(ps[0], comp) && PacketsOk(ps[1..], comp)
    ensures Expand(ps) == PacketPixels(ps[0]) + Expand(ps[1..])
    ensures Bytes(ps, comp) == PacketBytes(ps[0], comp) + Bytes(ps[1..], comp)
  {
    hide PacketPixels, PacketOk;
  }

  lemma {:induction false} PacketsAppend(a: seq<Packet>, b: seq<Packet>, comp: nat)
    requires PacketsOk(a, comp) && PacketsOk(b, comp)
    ensures PacketsOk(a + b, comp)
    ensures Expand(a + b) == Expand(a) + Expand(b)
    ensures Bytes(a + b, comp) == Bytes(a, comp) + Bytes(b, comp)
    decreases |a|
  {
    hide PacketOk, PacketPixels, PacketBytes, Expand, Bytes;
    assert PacketsOk(a + b, comp);
    hide PacketsOk;
    if a == [] {
      assert a + b == b;
      NoPackets(comp, []);
    } else {
      PacketsHead(a, comp);
      PacketsHead(a + b, comp);
      assert (a + b)[1..] == a[1..] + b;
      PacketsAppend(a[1..], b, comp);
      Associate(PacketPixels(a[0]), Expand(a[1..]), Expand(b));
      Associate(PacketBytes(a[0], comp), Bytes(a[1..], comp), Bytes(b, comp));
    }
  }

  lemma OnePacket(p: Packet, comp: nat)
    requires PacketOk(p, comp)
    ensures PacketsOk([p], comp) && Expand([p]) == PacketPixels(p) && Bytes([p], comp) == PacketBytes(p, comp)
  {
    assert [p][1..] == [];
  }

  // ----- the writer

  /** `comp` is 1 to 4; the second and the fourth component are alpha. */
  method WritePixel(d: Pixel) returns (out: seq<byte>)
    requires 1 <= |d| <= 4
    ensures out == Swapped(d)
    ensures out == match |d| case 1 => [d[0]] case 2 => [d[0], d[1]] case 3 => [d[2], d[1], d[0]]
                             case _ => [d[2], d[1], d[0], d[3]]
  {
    var has_alpha := |d| == 2 || |d| == 4;
    out := if |d| <= 2 then [d[0]] else [d[2], d[1], d[0]];
    if has_alpha {
      out := out + [d[|d| - 1]];
    }
  }

  /** A run packet starts at `i` exactly when the first two pixels agree, and goes on as long as they do. */
  predicate IsRun(row: seq<Pixel>, i: nat, len: nat) {
    && i + 1 < |row| && row[i] == row[i + 1]
    && 2 <= len <= 128 && i + len <= |row|
    && (forall k :: i <= k < i + len ==> row[k] == row[i])
    && (len == 128 || i + len == |row| || row[i + len] != row[i])
  }

  /** A raw packet goes on until a pixel equals the one two before it, which is left out with its neighbour. */
  predicate IsRaw(row: seq<Pixel>, i: nat, len: nat) {
    && i < |row| && (i + 1 < |row| ==> row[i] != row[i + 1])
    && 1 <= len <= 128 && i + len <= |row|
    && (forall k :: i + 2 <= k < i + len ==> row[k] != row[k - 2])
    && (len == 128 || i + len == |row| || (i + len + 1 < |row| && row[i + len + 1] == row[i + len - 1]))
  }

  method ScanRaw(row: seq<Pixel>, i: nat) returns (len: nat)
    requires i + 1 < |row| && row[i] != row[i + 1]
    ensures IsRaw(row, i, len)
    ensures i + len <= |row| && 1 <= len <= 128 && forall k :: i + 2 <= k < i + len ==> row[k] != row[k - 2]
    ensures len < 128 && i + len < |row| ==> i + len + 1 < |row| && row[i + len + 1] == row[i + len - 1]
  {
    len := 2;
    var prev, k := i, i + 2;
    while k < |row| && len < 128
      invariant k <= |row| && k == prev + 2 == i + len && 2 <= len <= 128
      invariant forall j :: i + 2 <= j < i + len ==> row[j] != row[j - 2]
    {
      if row[prev] != row[k] {
        prev := prev + 1;
        len := len + 1;
      } else {
        len := len - 1;
        return;
      }
      k := k + 1;
    }
  }

  method ScanRun(row: seq<Pixel>, i: nat) returns (len: nat)
    requires i + 1 < |row| && row[i] == row[i + 1]
    ensures IsRun(row, i, len)
    ensures i + len <= |row| && 2 <= len <= 128 && forall k :: i <= k < i + len ==> row[k] == row[i]
    ensures len < 128 && i + len < |row| ==> row[i + len] != row[i]
  {
    len := 2;
    var k := i + 2;
    while k < |row| && len < 128
      invariant k <= |row| && k == i + len && 2 <= len <= 128
      invariant forall j :: i <= j < i + len ==> row[j] == row[i]
    {
      if row[i] != row[k] { break; }
      len := len + 1;
      k := k + 1;
    }
  }

  /** The next packet of a row. */
  method Scan(row: seq<Pixel>, i: nat) returns (len: nat, diff: bool)
    requires i < |row|
    ensures if diff then IsRaw(row, i, len) else IsRun(row, i, len)
  {
    len, diff := 1, true;
    if i < |row| - 1 {
      diff := row[i] != row[i + 1];
      if diff {
        len := ScanRaw(row, i);
      } else {
        len := ScanRun(row, i);
      }
    }
  }

  method WritePixels(row: seq<Pixel>, i: nat, len: nat, comp: nat) returns (out: seq<byte>)
    requires i + len <= |row| && 1 <= comp <= 4 && PixelsOk(row, comp)
    ensures out == Flat(row[i..i + len])
  {
    hide Swapped;
    out := [];
    for k := 0 to len
      invariant out == Flat(row[i..i + k])
    {
      var b := WritePixel(row[i + k]);
      assert row[i..i + k + 1] == row[i..i + k] + [row[i + k]];
      out := out + b;
    }
  }

  /** The packet that the scan found. */
  ghost function Found(row: seq<Pixel>, i: nat, len: nat, diff: bool): Packet
    requires i < |row| && i + len <= |row|
  {
    if diff then Raw(row[i..i + len]) else Run(len, row[i])
  }

  lemma FoundOk(row: seq<Pixel>, i: nat, len: nat, diff: bool, comp: nat)
    requires PixelsOk(row, comp) && i < |row| && i + len <= |row|
    requires if diff then IsRaw(row, i, len) else IsRun(row, i, len)
    ensures PacketOk(Found(row, i, len, diff), comp)
    ensures PacketPixels(Found(row, i, len, diff)) == row[i..i + len]
  {
  }

  /** `p` is the packet that a scan at `i` finds. */
  ghost predicate IsNext(row: seq<Pixel>, i: nat, p: Packet) {
    match p
    case Raw(pixels) => IsRaw(row, i, |pixels|) && pixels == row[i..i + |pixels|]
    case Run(len, value) => IsRun(row, i, len) && value == row[i]
  }

  /** Every packet is the one that a scan finds behind the pixels of the packets before it. */
  ghost predicate Scanned(row: seq<Pixel>, ps: seq<Packet>) {
    forall m :: 0 <= m < |ps| ==> IsNext(row, |Expand(ps[..m])|, ps[m])
  }

  lemma ScannedSnoc(row: seq<Pixel>, ps: seq<Packet>, p: Packet)
    requires Scanned(row, ps) && IsNext(row, |Expand(ps)|, p)
    ensures Scanned(row, ps + [p])
  {
    hide Expand, IsNext;
    forall m | 0 <= m < |ps + [p]| ensures IsNext(row, |Expand((ps + [p])[..m])|, (ps + [p])[m]) {
      assert (ps + [p])[..m] == ps[..m];
      assert m == |ps| ==> ps[..m] == ps;
    }
  }

  /** The packets stand for this row and nothing else, and are those that the scans of the row find. */
  ghost predicate RowPackets(row: seq<Pixel>, comp: nat, ps: seq<Packet>) {
    PacketsOk(ps, comp) && Expand(ps) == row && Scanned(row, ps)
  }

  method WriteRow(row: seq<Pixel>, comp: nat) returns (out: seq<byte>)
    requires 1 <= comp <= 4 && PixelsOk(row, comp)
    ensures exists ps :: RowPackets(row, comp, ps) && PacketsOk(ps, comp) && out == Bytes(ps, comp)
  {
    hide Expand, Bytes, PacketsOk, PacketOk, PacketPixels, Flat, IsRaw, IsRun, Found, Scanned;
    assert PacketsOk([], comp) && Bytes([], comp) == [] && Expand([]) == [] && Scanned(row, []) by {
      NoPackets(comp, row);
    }
    out := [];
    ghost var ps: seq<Packet> := [];
    var i: nat := 0;
    while i < |row|
      invariant i <= |row| && PacketsOk(ps, comp) && out == Bytes(ps, comp) && Expand(ps) == row[..i]
                && Scanned(row, ps)
    {
      var len, diff := Scan(row, i);
      assert 1 <= len && i + len <= |row| by { ScanBound(row, i, len, diff); }
      FoundOk(row, i, len, diff, comp);
      ghost var p := Found(row, i, len, diff);
      var bytes := WritePacket(row, i, len, diff, comp);
      OnePacket(p, comp);
      PacketsAppend(ps, [p], comp);
      FoundNext(row, i, len, diff);
      ScannedSnoc(row, ps, p);
      out := out + bytes;
      ps := ps + [p];
      assert row[..i + len] == row[..i] + row[i..i + len];
      i := i + len;
    }
    assert row[..|row|] == row;
  }

  lemma NoPackets(comp: nat, row: seq<Pixel>)
    ensures PacketsOk([], comp) && Bytes([], comp) == [] && Expand([]) == [] && Scanned(row, [])
  {
  }

  lemma FoundNext(row: seq<Pixel>, i: nat, len: nat, diff: bool)
    requires if diff then IsRaw(row, i, len) else IsRun(row, i, len)
    ensures i < |row| && i + len <= |row| && IsNext(row, i, Found(row, i, len, diff))
  {
  }

  lemma ScanBound(row: seq<Pixel>, i: nat, len: nat, diff: bool)
    requires if diff then IsRaw(row, i, len) else IsRun(row, i, len)
    ensures 1 <= len && i < |row| && i + len <= |row|
  {
  }

  method WritePacket(row: seq<Pixel>, i: nat, len: nat, diff: bool, comp: nat) returns (out: seq<byte>)
    requires 1 <= comp <= 4 && PixelsOk(row, comp) && i < |row| && i + len <= |row|
    requires PacketOk(Found(row, i, len, diff), comp)
    ensures out == PacketBytes(Found(row, i, len, diff), comp)
    ensures |out| > 0 && out[0] == if diff then len - 1 else 128 + len - 1
  {
    if diff {
      var bytes := WritePixels(row, i, len, comp);
      out := [len - 1] + bytes;
    } else {
      var bytes := WritePixel(row[i]);
      out := [(len - 129) % 256] + bytes;
    }
  }

  /** Unflipped, the last row is written first. */
  lemma OrderLaw(rows: seq<seq<Pixel>>, j: nat)
    requires j < |rows|
    ensures Order(rows, true)[j] == rows[j] && |Order(rows, false)| == |rows|
    ensures Order(rows, false)[j] == rows[|rows| - 1 - j]
  {
  }

  /** The 18 bytes before the packets. */
  function Header(x: nat, y: nat, comp: nat): seq<byte>
    requires 1 <= comp <= 4
  {
    [0, 0, if comp <= 2 then 11 else 10, 0, 0, 0, 0, 0, 0, 0, 0, 0,
     x % 256, x / 256 % 256, y % 256, y / 256 % 256, comp * 8, if comp % 2 == 0 then 8 else 0]
  }

  lemma HeaderBytes(x: nat, y: nat, comp: nat, rest: seq<byte>)
    requires 1 <= comp <= 4
    ensures var out := Header(x, y, comp) + rest;
            && |out| >= 18 && out[..12] == [0, 0, if comp <= 2 then 11 else 10, 0, 0, 0, 0, 0, 0, 0, 0, 0]
            && out[12] == x % 256 && out[13] == x / 256 % 256 && out[14] == y % 256 && out[15] == y / 256 % 256
            && out[16] == 8 * comp && out[17] == if comp == 2 || comp == 4 then 8 else 0
  {
  }

  /** An image of `y` rows of `x` pixels. */
  predicate ImageOk(rows: seq<seq<Pixel>>, x: nat, y: nat, comp: nat) {
    |rows| == y && Wide(rows, x) && 1 <= comp <= 4 && forall j :: 0 <= j < y ==> PixelsOk(rows[j], comp)
  }

  /** The rows in the order in which they are written: bottom first, unless the writer flips. */
  function Order(rows: seq<seq<Pixel>>, flip: bool): seq<seq<Pixel>> {
    if flip then rows else Reversed(rows)
  }

  /** `packets[n]` are the packets of the `n`th row written, `all` of them together. */
  ghost predicate Written(order: seq<seq<Pixel>>, comp: nat, n: nat, packets: seq<seq<Packet>>, all: seq<Packet>,
                          body: seq<byte>) {
    && n <= |order| && |packets| == n
    && (forall m :: 0 <= m < n ==> RowPackets(order[m], comp, packets[m]))
    && all == Concat(packets) && PacketsOk(all, comp) && body == Bytes(all, comp) && Expand(all) == Concat(order[..n])
  }

  lemma WrittenNone(order: seq<seq<Pixel>>, comp: nat)
    ensures Written(order, comp, 0, [], [], [])
  {
    NoPackets(comp, []);
  }

  lemma WrittenNext(order: seq<seq<Pixel>>, comp: nat, n: nat, packets: seq<seq<Packet>>, all: seq<Packet>,
                    body: seq<byte>, ps: seq<Packet>)
    requires Written(order, comp, n, packets, all, body) && n < |order|
    requires RowPackets(order[n], comp, ps)
    ensures PacketsOk(ps, comp) && Written(order, comp, n + 1, packets + [ps], all + ps, body + Bytes(ps, comp))
  {
    hide Expand, Bytes, PacketsOk, Concat, Scanned;
    PacketsAppend(all, ps, comp);
    ConcatSnoc(packets, ps);
    ConcatSnoc(order[..n], order[n]);
    assert order[..n + 1] == order[..n] + [order[n]];
  }

  /** The whole file: a header, and the packets of each row in this order, none of which crosses a row. */
  ghost predicate IsFile(order: seq<seq<Pixel>>, x: nat, y: nat, comp: nat, out: seq<byte>)
    requires 1 <= comp <= 4
  {
    exists packets, all, body :: Written(order, comp, |order|, packets, all, body) && out == Header(x, y, comp) + body
  }

  method WriteTga(rows: seq<seq<Pixel>>, x: nat, y: nat, comp: nat, flip: bool) returns (out: seq<byte>)
    requires ImageOk(rows, x, y, comp)
    ensures IsFile(Order(rows, flip), x, y, comp, out)
    ensures |out| >= 18 && out[..12] == [0, 0, if comp <= 2 then 11 else 10, 0, 0, 0, 0, 0, 0, 0, 0, 0]
    ensures out[12] == x % 256 && out[13] == x / 256 % 256 && out[14] == y % 256 && out[15] == y / 256 % 256
    ensures out[16] == 8 * comp && out[17] == if comp == 2 || comp == 4 then 8 else 0
  {
    hide Expand, Bytes, PacketsOk, PixelsOk, Concat, Wide, Written, Header, Scanned, RowPackets;
    ghost var order := Order(rows, flip);
    ghost var body: seq<byte> := [];
    out := Header(x, y, comp);
    ghost var packets: seq<seq<Packet>> := [];
    ghost var all: seq<Packet> := [];
    WrittenNone(order, comp);
    var j, jdir := if flip then 0 else y - 1, if flip then 1 else -1;
    for n := 0 to y
      invariant j == if flip then n else y - 1 - n
      invariant Written(order, comp, n, packets, all, body) && out == Header(x, y, comp) + body
    {
      assert order[n] == rows[j];
      var bytes := WriteRow(rows[j], comp);
      ghost var ps :| RowPackets(rows[j], comp, ps) && PacketsOk(ps, comp) && bytes == Bytes(ps, comp);
      WrittenNext(order, comp, n, packets, all, body, ps);
      out := out + bytes;
      body := body + bytes;
      packets := packets + [ps];
      all := all + ps;
      j := j + jdir;
    }
    assert Written(order, comp, |order|, packets, all, body);
    HeaderBytes(x, y, comp, body);
  }

  lemma WrittenAll(order: seq<seq<Pixel>>, comp: nat, packets: seq<seq<Packet>>, all: seq<Packet>, body: seq<byte>)
    requires Written(order, comp, |order|, packets, all, body)
    ensures PacketsOk(all, comp) && body == Bytes(all, comp) && Expand(all) == Concat(order)
  {
    hide Expand, Bytes, PacketsOk, Concat;
    assert order[..|order|] == order;
  }
}
