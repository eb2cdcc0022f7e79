/**
 What the bytes of a decoded PNG image are, said of the data and the image alone:
 the filters of section 6 of RFC 2083 and the alpha that is added.
 */
module PngLaws {
  import opened Basics
  import opened Bits
  import opened Raster
  import opened PngFilter
  import opened PngEncoder
  import opened PngRows
  import opened PngDecoder
  import opened PngInterlace

  function Gap(x: int, y: int): int {
    if x < y then y - x else x - y
  }

  /** `p` is the nearest of the three to `a + b - c`, the first of those that are as near. */
  predicate Nearest(p: int, a: int, b: int, c: int) {
    var e := a + b - c;
    var da, db, dc := Gap(e, a), Gap(e, b), Gap(e, c);
    && (da <= db && da <= dc ==> p == a)
    && (!(da <= db && da <= dc) && db <= dc ==> p == b)
    && (!(da <= db && da <= dc) && dc < db ==> p == c)
  }

  /** The byte `x` of a line of type `t` stands for `b`, with these neighbours. */
  predicate Undone(t: nat, x: byte, left: byte, up: byte, upLeft: byte, b: byte) {
    var p := (b - x) % 256;
    match t
    case 0 => p == 0
    case 1 => p == left
    case 2 => p == up
    case 3 => 2 * p <= left + up <= 2 * p + 1
    case 4 => Nearest(p, left, up, upLeft)
    case _ => false
  }

  lemma AddUndone(t: nat, x: byte, left: byte, up: byte, upLeft: byte)
    requires t <= 4
    ensures Undone(t, x, left, up, upLeft, Add(x, Predict(t, left, up, upLeft)))
  {
    var p: byte := Predict(t, left, up, upLeft);
    AddBack(x, p);
    hide Add;
    if t == 0 {} else if t == 1 {} else if t == 2 {} else if t == 3 {} else {}
  }

  lemma AddBack(x: byte, p: byte)
    ensures (Add(x, p) - x) % 256 == p
  {
    var s := x + p;
    assert s % 256 == if s < 256 then s else s - 256;
  }

  /** The estimate of a line adds up how far each byte is from 0, going down or up. */
  lemma EstimateLaws(a: seq<byte>, c: seq<byte>, b: byte)
    ensures Estimate([b]) == if b < 128 then b else 256 - b
    ensures Estimate(a + c) == Estimate(a) + Estimate(c) && Estimate([]) == 0
  {
    assert [b][..0] == [];
    EstimateConcat(a, c);
  }

  lemma {:induction false} EstimateConcat(a: seq<byte>, c: seq<byte>)
    ensures Estimate(a + c) == Estimate(a) + Estimate(c)
    decreases |c|
  {
    if c == [] {
      assert a + c == a;
    } else {
      assert (a + c)[..|a + c| - 1] == a + c[..|c| - 1];
      EstimateConcat(a, c[..|c| - 1]);
    }
  }

  /** Row `y` that is written: from the top, or from the bottom if the image is flipped. */
  lemma RowLaw(pixels: seq<byte>, stride: nat, w: nat, height: nat, y: nat, flip: bool, i: nat, at: nat)
    requires BufferOk(pixels, stride, w, height) && y < height && i < w
    requires at == stride * (if flip then height - 1 - y else y) + i
    ensures at < |pixels| && ImageRow(pixels, stride, w, height, y, flip)[i] == pixels[at]
  {
    RowInBuffer(pixels, stride, w, height, y, flip);
    var start := RowStart(stride, height, y, flip);
    assert at == start + i;
    hide RowStart, BufferOk;
  }

  /** A stride of 0 stands for rows without gaps. */
  lemma StrideLaw(stride: nat, x: nat, n: nat)
    ensures RealStride(stride, x, n) == stride || (stride == 0 && RealStride(stride, x, n) == x * n)
    ensures stride == 0 ==> RealStride(stride, x, n) == x * n
  {
  }

  /** A size is valid when it fits an `int`, with what is added. */
  lemma SizesValidIff(a: nat, b: nat, c: nat, add: nat)
    requires c >= 1
    ensures SizesValid(a, b, c, add) <==> a * b * c + add <= 0x7FFF_FFFF
  {
    var p := a * b;
    MulMono(p, 1, c);
  }

  /** Row `j` is its line, undone with the row before it. */
  lemma {:induction false} DecodedRow(lines: seq<seq<byte>>, n: nat, w: nat, j: nat)
    requires Wide(lines, w + 1) && Decoded(lines, n, w).Some? && j < |lines|
    ensures var rows := Decoded(lines, n, w).value;
            && |lines[j]| == w + 1 && lines[j][0] <= 4
            && rows[j] == Unfiltered(lines[j][0], lines[j][1..], if j == 0 then Fill(0, w) else rows[j - 1], n, w)
    decreases |lines|
  {
    hide Unfiltered;
    if j < |lines| - 1 { DecodedRow(lines[..|lines| - 1], n, w, j); }
  }

  /** Byte `i` of row `j`, from its line and its neighbours in the image. */
  lemma DecodedByte(lines: seq<seq<byte>>, n: nat, w: nat, j: nat, i: nat)
    requires n >= 1 && Wide(lines, w + 1) && Decoded(lines, n, w).Some? && j < |lines| && i < w
    ensures var rows := Decoded(lines, n, w).value;
            && |lines[j]| == w + 1 && |rows[j]| == w && (j > 0 ==> |rows[j - 1]| == w)
            && Undone(lines[j][0], lines[j][1 + i],
                      if i < n then 0 else rows[j][i - n],
                      if j == 0 then 0 else rows[j - 1][i],
                      if j == 0 || i < n then 0 else rows[j - 1][i - n],
                      rows[j][i])
  {
    var rows := Decoded(lines, n, w).value;
    DecodedRow(lines, n, w, j);
    hide Decoded, Undone, Predict, Add;
    assert |rows[j]| == w && (j > 0 ==> |rows[j - 1]| == w);
    var prior := if j == 0 then Fill(0, w) else rows[j - 1];
    var line := lines[j][1..];
    UnfilteredAt(lines[j][0], line, prior, n, i);
    assert line[i] == lines[j][1 + i];
    AddUndone(lines[j][0], line[i], At(rows[j], i - n), At(prior, i), At(prior, i - n));
  }

  /** Byte `k` of pixel `i` of row `j` as stored: the row at `a`, the pixel `b` further; its bytes at `c` of the row. */
  lemma StoredByte(out: seq<byte>, rows: seq<seq<byte>>, n: nat, outN: nat, x: nat, j: nat, i: nat, k: nat,
                   w: nat, a: nat, b: nat, c: nat)
    requires Wide(rows, x * n) && n <= outN <= n + 2 && j < |rows| && i < x && k < outN && c == i * n
    requires out == Concat(LayAll(rows, n, outN, x)) && w == x * outN && a == w * j && b == i * outN
    ensures |rows[j]| == x * n && c + n <= |rows[j]| && a + b + outN <= |out|
    ensures out[a + b + k] == if k < n then rows[j][c + k] else 255
  {
    BufferPixel(out, rows, n, outN, x, j, i, w, a, b);
    hide Concat, LayAll, Wide;
    var pixel := out[a + b..a + b + outN];
    assert pixel[k] == out[a + b + k];
    assert k < n ==> pixel[k] == rows[j][c..c + n][k];
  }

  lemma PixelBefore(i: nat, n: nat)
    requires i > 0
    ensures (i - 1) * n == i * n - n && i * n >= n
  {
  }

  /** The neighbours of a byte in the rows are its neighbours in what is stored. */
  lemma Neighbours(out: seq<byte>, rows: seq<seq<byte>>, n: nat, outN: nat, x: nat, j: nat, i: nat, k: nat,
                   w: nat, a: nat, b: nat, c: nat)
    requires Wide(rows, x * n) && n <= outN <= n + 2 && j < |rows| && i < x && k < n && c == i * n
    requires out == Concat(LayAll(rows, n, outN, x)) && w == x * outN && a == w * j && b == i * outN
    ensures |rows[j]| == x * n && c + n <= |rows[j]| && a + b + outN <= |out| && (i == 0 <==> c + k < n)
    ensures (j > 0 ==> w <= a && |rows[j - 1]| == x * n) && (i > 0 ==> outN <= b)
    ensures out[a + b + k] == rows[j][c + k]
    ensures i > 0 ==> out[a + b + k - outN] == rows[j][c + k - n]
    ensures j > 0 ==> out[a + b + k - w] == rows[j - 1][c + k]
    ensures i > 0 && j > 0 ==> out[a + b + k - w - outN] == rows[j - 1][c + k - n]
  {
    hide Concat, LayAll, Wide;
    StoredByte(out, rows, n, outN, x, j, i, k, w, a, b, c);
    if i > 0 {
      PixelBefore(i, outN);
      PixelBefore(i, n);
      StoredByte(out, rows, n, outN, x, j, i - 1, k, w, a, b - outN, c - n);
    }
    if j > 0 {
      RowBefore(w, j);
      StoredByte(out, rows, n, outN, x, j - 1, i, k, w, a - w, b, c);
      if i > 0 { StoredByte(out, rows, n, outN, x, j - 1, i - 1, k, w, a - w, b - outN, c - n); }
    }
  }

  lemma RowBefore(w: nat, j: nat)
    requires j > 0
    ensures w * (j - 1) == w * j - w && w * j >= w
  {
  }

  /**
   Pixel `i` of row `j` of an image is undone from its line and from its neighbours in
   the image itself. The line is at `l` of the data, whose rows have `v` bytes; the row
   is at `a`, the pixel at `b` of the row, and at `c` of the line.
   */
  lemma ImageLaw(raw: seq<byte>, out: seq<byte>, x: nat, y: nat, n: nat, outN: nat, j: nat, i: nat, k: nat,
                 v: nat, w: nat, l: nat, a: nat, b: nat, c: nat)
    requires n >= 1 && n <= outN <= n + 2 && RawRows(raw, x, y, n, outN).Image?
    requires out == Concat(LayAll(RawRows(raw, x, y, n, outN).rows, n, outN, x))
    requires j < y && i < x && k < n
    requires v == x * n && w == x * outN && l == (v + 1) * j && a == w * j && b == i * outN && c == i * n
    ensures l + 1 + c + k < |raw| && a + b + outN <= |out| && (i > 0 ==> outN <= b) && (j > 0 ==> w <= a)
    ensures Undone(raw[l], raw[l + 1 + c + k],
                   if i == 0 then 0 else out[a + b + k - outN],
                   if j == 0 then 0 else out[a + b + k - w],
                   if i == 0 || j == 0 then 0 else out[a + b + k - w - outN],
                   out[a + b + k])
  {
    hide Undone, RawRows, Decoded, Concat, LayAll;
    var rows := RawRows(raw, x, y, n, outN).rows;
    var lines := LinesOf(raw, x, y, n, outN, v);
    Neighbours(out, rows, n, outN, x, j, i, k, w, a, b, c);
    LineAt(raw, lines, v + 1, j);
    hide Wide;
    LineBytes(raw, l, v, c + k);
    DecodedByte(lines, n, v, j, c + k);
  }

  lemma LineBytes(raw: seq<byte>, l: nat, v: nat, i: nat)
    requires l + v + 1 <= |raw| && i < v
    ensures raw[l..l + v + 1][0] == raw[l] && raw[l..l + v + 1][1 + i] == raw[l + 1 + i]
  {
  }

  /** Alpha that is added is opaque. */
  lemma AlphaLaw(raw: seq<byte>, out: seq<byte>, x: nat, y: nat, n: nat, outN: nat, j: nat, i: nat, k: nat, at: nat)
    requires n >= 1 && n <= outN <= n + 2 && RawRows(raw, x, y, n, outN).Image?
    requires out == Concat(LayAll(RawRows(raw, x, y, n, outN).rows, n, outN, x))
    requires j < y && i < x && n <= k < outN && at == (x * outN) * j + i * outN + k
    ensures at < |out| && out[at] == 255
  {
    hide RawRows, Concat, LayAll;
    var w := x * outN;
    var a, b := w * j, i * outN;
    StoredByte(out, RawRows(raw, x, y, n, outN).rows, n, outN, x, j, i, k, w, a, b, i * n);
  }

  lemma LinesOf(raw: seq<byte>, x: nat, y: nat, n: nat, outN: nat, v: nat) returns (lines: seq<seq<byte>>)
    requires RawRows(raw, x, y, n, outN).Image? && v == x * n
    ensures |lines| == y && Wide(lines, v + 1) && Concat(lines) <= raw
    ensures Decoded(lines, n, v) == Some(RawRows(raw, x, y, n, outN).rows)
  {
    hide Decoded, SizesValid;
    lines := Split(raw[..(x * n + 1) * y], x * n + 1, y);
  }
}
