/**
 The PNG writer's row loop: the first-row forms of the filters, the estimate by
 which a filter is chosen, and the filtered image.
 */
module PngEncoder {
  import opened Basics
  import opened Bits
  import opened Raster
  import opened PngFilter

  // ----- rows in the caller's buffer

  /** `height` rows of `w` bytes, `stride` bytes apart. */
  predicate BufferOk(pixels: seq<byte>, stride: nat, w: nat, height: nat) {
    height > 0 ==> stride * (height - 1) + w <= |pixels|
  }

  function RowStart(stride: nat, height: nat, y: nat, flip: bool): nat
    requires y < height
  {
    stride * if flip then height - 1 - y else y
  }

  function SignedStride(stride: int, flip: bool): int {
    if flip then -stride else stride
  }

  lemma RowInBuffer(pixels: seq<byte>, stride: nat, w: nat, height: nat, y: nat, flip: bool)
    requires BufferOk(pixels, stride, w, height) && y < height
    ensures RowStart(stride, height, y, flip) + w <= |pixels|
  {
    MulMono(stride, if flip then height - 1 - y else y, height - 1);
  }

  /** The `y`th row in writing order. */
  function ImageRow(pixels: seq<byte>, stride: nat, w: nat, height: nat, y: nat, flip: bool): (row: seq<byte>)
    requires BufferOk(pixels, stride, w, height) && y < height
    ensures |row| == w
  {
    RowInBuffer(pixels, stride, w, height, y, flip);
    pixels[RowStart(stride, height, y, flip)..RowStart(stride, height, y, flip) + w]
  }

  /** The row written before row `y` is one stride away, on the other side when flipped. */
  lemma RowBefore(stride: nat, height: nat, y: nat, flip: bool)
    requires 0 < y < height
    ensures RowStart(stride, height, y, flip) - SignedStride(stride, flip) == RowStart(stride, height, y - 1, flip)
  {
    if flip {
      assert stride * (height - y) == stride * (height - 1 - y) + stride;
    } else {
      assert stride * y == stride * (y - 1) + stride;
    }
  }

  function PriorRow(pixels: seq<byte>, stride: nat, w: nat, height: nat, y: nat, flip: bool): (row: seq<byte>)
    requires BufferOk(pixels, stride, w, height) && y < height
    ensures |row| == w
  {
    if y == 0 then Fill(0, w) else ImageRow(pixels, stride, w, height, y - 1, flip)
  }

  // ----- one row

  /** What the loops of the row encoder may use of the buffer: the row at `z`, and the row above it. */
  ghost predicate Window(pixels: seq<byte>, z: nat, up: int, row: seq<byte>, prior: seq<byte>, first: bool) {
    && z + |row| <= |pixels| && |prior| == |row| && pixels[z..z + |row|] == row
    && if first then prior == Fill(0, |row|) else 0 <= up && up + |row| <= |pixels| && pixels[up..up + |row|] == prior
  }

  /** A byte of the first pixel, which has nothing to its left. */
  method EncodeFirst(pixels: seq<byte>, z: nat, up: int, kind: nat, i: nat, ghost t: nat, ghost n: nat,
                     ghost row: seq<byte>, ghost prior: seq<byte>, ghost first: bool) returns (b: byte)
    requires i < n && i < |row| && t <= 4 && kind == (if first then FirstMap(t) else t)
    requires Window(pixels, z, up, row, prior, first)
    ensures b == Sub(row[i], Predicted(t, row, prior, n, i))
  {
    WindowAt(pixels, z, up, row, prior, first, i);
    match kind
    case 0 => b := pixels[z + i];
    case 1 => b := pixels[z + i];
    case 2 => b := Sub(pixels[z + i], pixels[up + i]);
    case 3 => b := Sub(pixels[z + i], Mean(0, pixels[up + i]));
    case 4 => b := Sub(pixels[z + i], Paeth(0, pixels[up + i], 0));
    case 5 => b := pixels[z + i];
    case _ => b := pixels[z + i];
  }

  /** A byte of a later pixel. */
  method EncodeLater(pixels: seq<byte>, z: nat, up: int, kind: nat, i: nat, n: nat, ghost t: nat,
                     ghost row: seq<byte>, ghost prior: seq<byte>, ghost first: bool) returns (b: byte)
    requires n <= i < |row| && t <= 4 && kind == (if first then FirstMap(t) else t)
    requires Window(pixels, z, up, row, prior, first)
    ensures b == Sub(row[i], Predicted(t, row, prior, n, i))
  {
    WindowAt(pixels, z, up, row, prior, first, i);
    WindowAt(pixels, z, up, row, prior, first, i - n);
    match kind
    case 0 => b := pixels[z + i];
    case 1 => b := Sub(pixels[z + i], pixels[z + i - n]);
    case 2 => b := Sub(pixels[z + i], pixels[up + i]);
    case 3 => b := Sub(pixels[z + i], Mean(pixels[z + i - n], pixels[up + i]));
    case 4 => b := Sub(pixels[z + i], Paeth(pixels[z + i - n], pixels[up + i], pixels[up + i - n]));
    case 5 => b := Sub(pixels[z + i], Mean(pixels[z + i - n], 0));
    case _ => b := Sub(pixels[z + i], Paeth(pixels[z + i - n], 0, 0));
  }

  lemma WindowAt(pixels: seq<byte>, z: nat, up: int, row: seq<byte>, prior: seq<byte>, first: bool, i: nat)
    requires Window(pixels, z, up, row, prior, first) && i < |row|
    ensures pixels[z + i] == row[i] && if first then prior[i] == 0 else pixels[up + i] == prior[i]
  {
    assert pixels[z..z + |row|][i] == row[i];
    if !first { assert pixels[up..up + |row|][i] == prior[i]; }
  }

  /** The two loops over a row. */
  method EncodeInto(pixels: seq<byte>, z: nat, up: int, kind: nat, n: nat, line: array<byte>, ghost t: nat,
                    ghost row: seq<byte>, ghost prior: seq<byte>, ghost first: bool)
    requires n <= line.Length == |row| && t <= 4 && kind == (if first then FirstMap(t) else t)
    requires Window(pixels, z, up, row, prior, first)
    modifies line
    ensures line[..] == Filtered(t, row, prior, n)
  {
    hide Predicted, Window, Sub;
    for i := 0 to n
      invariant forall k :: 0 <= k < i ==> line[k] == Sub(row[k], Predicted(t, row, prior, n, k))
    {
      var b := EncodeFirst(pixels, z, up, kind, i, t, n, row, prior, first);
      line[i] := b;
    }
    for i := n to line.Length
      invariant forall k :: 0 <= k < i ==> line[k] == Sub(row[k], Predicted(t, row, prior, n, k))
    {
      var b := EncodeLater(pixels, z, up, kind, i, n, t, row, prior, first);
      line[i] := b;
    }
  }

  /** `stbiw__encode_png_line` for rows of `w` bytes. */
  method EncodeLine(pixels: seq<byte>, stride: nat, w: nat, height: nat, y: nat, n: nat, t: nat, flip: bool,
                    line: array<byte>)
    requires n <= w == line.Length && t <= 4 && y < height && BufferOk(pixels, stride, w, height)
    modifies line
    ensures line[..] == Filtered(t, ImageRow(pixels, stride, w, height, y, flip),
                                 PriorRow(pixels, stride, w, height, y, flip), n)
  {
    hide Filtered, Window, ImageRow, PriorRow, BufferOk, RowStart;
    var kind := if y != 0 then t else FirstMap(t);
    var z := RowStart(stride, height, y, flip);
    var up := z - SignedStride(stride, flip);
    RowWindow(pixels, stride, w, height, y, flip, z, up);
    EncodeInto(pixels, z, up, kind, n, line, t, ImageRow(pixels, stride, w, height, y, flip),
               PriorRow(pixels, stride, w, height, y, flip), y == 0);
  }

  lemma RowWindow(pixels: seq<byte>, stride: nat, w: nat, height: nat, y: nat, flip: bool, z: nat, up: int)
    requires BufferOk(pixels, stride, w, height) && y < height
    requires z == RowStart(stride, height, y, flip) && up == z - SignedStride(stride, flip)
    ensures Window(pixels, z, up, ImageRow(pixels, stride, w, height, y, flip),
                   PriorRow(pixels, stride, w, height, y, flip), y == 0)
  {
    RowInBuffer(pixels, stride, w, height, y, flip);
    if y > 0 {
      RowBefore(stride, height, y, flip);
      RowInBuffer(pixels, stride, w, height, y - 1, flip);
    }
  }

  // ----- choosing a filter

  function Signed(b: int): int {
    if b < 128 then b else b - 256
  }

  /** The sum of the absolute values of the bytes, read as signed. */
  function Estimate(line: seq<byte>): nat {
    if line == [] then 0
    else
      var b := line[|line| - 1];
      Estimate(line[..|line| - 1]) + Abs(Signed(b))
  }

  method EstimateLine(line: array<byte>) returns (est: nat)
    ensures est == Estimate(line[..])
  {
    est := 0;
    for i := 0 to line.Length
      invariant est == Estimate(line[..i])
    {
      assert line[..i + 1][..i] == line[..i];
      est := est + Abs(Signed(line[i]));
    }
    assert line[..line.Length] == line[..];
  }

  /** The least estimate of the filters below `m`, of equal ones the first; filter 0 if none is below the bound. */
  predicate IsBest(row: seq<byte>, prior: seq<byte>, n: nat, m: nat, best: nat, val: nat) {
    && (val < INT_MAX ==> best < m && val == Estimate(Filtered(best, row, prior, n)))
    && (val == INT_MAX ==> best == 0)
    && val <= INT_MAX
    && forall u :: 0 <= u < m ==>
         var e := Estimate(Filtered(u, row, prior, n));
         val < e || (val == e && best <= u) || val == INT_MAX <= e
  }

  /** The filter of a row: the forced one, if a known one is forced, else one with the least estimate. */
  ghost predicate IsChoice(force: int, row: seq<byte>, prior: seq<byte>, n: nat, t: nat) {
    if 0 <= force < 5 then t == force else exists val: nat :: IsBest(row, prior, n, 5, t, val)
  }

  /** No estimate that is computed exceeds an `int`. */
  predicate EstimatesFit(force: int, row: seq<byte>, prior: seq<byte>, n: nat) {
    0 <= force < 5 || forall t :: 0 <= t < 5 ==> Estimate(Filtered(t, row, prior, n)) <= INT_MAX
  }

  method ChooseLine(pixels: seq<byte>, stride: nat, w: nat, y: nat, j: nat, n: nat, flip: bool, force: int,
                    line: array<byte>) returns (t: byte, fits: bool)
    requires n <= w == line.Length && j < y && BufferOk(pixels, stride, w, y)
    modifies line
    ensures t <= 4
    ensures fits <==>
            EstimatesFit(force, ImageRow(pixels, stride, w, y, j, flip), PriorRow(pixels, stride, w, y, j, flip), n)
    ensures IsChoice(force, ImageRow(pixels, stride, w, y, j, flip), PriorRow(pixels, stride, w, y, j, flip), n, t)
    ensures 0 <= force <= 4 ==> t == force
    ensures !(0 <= force <= 4) && fits ==>
              var row, prior := ImageRow(pixels, stride, w, y, j, flip), PriorRow(pixels, stride, w, y, j, flip);
              var least := Estimate(Filtered(t, row, prior, n));
              forall u :: 0 <= u <= 4 ==>
                least <= Estimate(Filtered(u, row, prior, n))
                && (u < t ==> least < Estimate(Filtered(u, row, prior, n)))
    ensures line[..] == Filtered(t, ImageRow(pixels, stride, w, y, j, flip), PriorRow(pixels, stride, w, y, j, flip), n)
  {
    hide Filtered, Estimate, ImageRow, PriorRow, BufferOk;
    fits := true;
    if 0 <= force < 5 {
      EncodeLine(pixels, stride, w, y, j, n, force, flip, line);
      t := force;
    } else {
      ghost var row, prior := ImageRow(pixels, stride, w, y, j, flip), PriorRow(pixels, stride, w, y, j, flip);
      var best, val: nat := 0, INT_MAX;
      for filter := 0 to 5
        invariant best < 5 && IsBest(row, prior, n, filter, best, val)
        invariant fits <==> forall u :: 0 <= u < filter ==> Estimate(Filtered(u, row, prior, n)) <= INT_MAX
      {
        EncodeLine(pixels, stride, w, y, j, n, filter, flip, line);
        var est := EstimateLine(line);
        fits := fits && est <= INT_MAX;
        if est < val {
          val := est;
          best := filter;
        }
      }
      EncodeLine(pixels, stride, w, y, j, n, best, flip, line);
      t := best;
      assert IsBest(row, prior, n, 5, t, val);
    }
  }

  // ----- the image

  /** The first `m` rows in writing order. */
  function ImageRows(pixels: seq<byte>, stride: nat, w: nat, height: nat, flip: bool, m: nat): (rows: seq<seq<byte>>)
    requires BufferOk(pixels, stride, w, height) && m <= height
    ensures |rows| == m && Wide(rows, w)
    ensures forall j :: 0 <= j < m ==> rows[j] == ImageRow(pixels, stride, w, height, j, flip)
  {
    seq(m, j requires 0 <= j < m => ImageRow(pixels, stride, w, height, j, flip))
  }

  /** The first `j` rows are encoded, each with a filter that may be chosen for it. */
  ghost predicate RowsEncoded(pixels: seq<byte>, stride: nat, w: nat, y: nat, n: nat, flip: bool, force: int, j: nat,
                              types: seq<byte>, filt: seq<byte>)
    requires BufferOk(pixels, stride, w, y)
  {
    && j <= y && |types| == j && (forall k :: 0 <= k < j ==> types[k] <= 4)
    && filt == Concat(Encoded(ImageRows(pixels, stride, w, y, flip, j), types, n, w))
    && forall k :: 0 <= k < j ==>
         IsChoice(force, ImageRow(pixels, stride, w, y, k, flip), PriorRow(pixels, stride, w, y, k, flip), n, types[k])
  }

  lemma RowsEncodedNone(pixels: seq<byte>, stride: nat, w: nat, y: nat, n: nat, flip: bool, force: int)
    requires BufferOk(pixels, stride, w, y)
    ensures RowsEncoded(pixels, stride, w, y, n, flip, force, 0, [], [])
  {
    hide ImageRow;
    assert ImageRows(pixels, stride, w, y, flip, 0) == [];
  }

  lemma RowsEncodedNext(pixels: seq<byte>, stride: nat, w: nat, y: nat, n: nat, flip: bool, force: int, j: nat,
                        types: seq<byte>, filt: seq<byte>, t: byte, line: seq<byte>)
    requires BufferOk(pixels, stride, w, y) && j < y
    requires RowsEncoded(pixels, stride, w, y, n, flip, force, j, types, filt)
    requires t <= 4
    requires IsChoice(force, ImageRow(pixels, stride, w, y, j, flip), PriorRow(pixels, stride, w, y, j, flip), n, t)
    requires line == Filtered(t, ImageRow(pixels, stride, w, y, j, flip), PriorRow(pixels, stride, w, y, j, flip), n)
    ensures RowsEncoded(pixels, stride, w, y, n, flip, force, j + 1, types + [t], filt + [t] + line)
  {
    hide Filtered, ImageRow, PriorRow, IsChoice, BufferOk, Encoded, Concat, ImageRows;
    EncodedNext(pixels, stride, w, y, n, flip, j, types, t, line);
  }

  /** No estimate of the first `j` rows exceeds an `int`. */
  predicate RowsFit(pixels: seq<byte>, stride: nat, w: nat, y: nat, n: nat, flip: bool, force: int, j: nat)
    requires BufferOk(pixels, stride, w, y) && j <= y
  {
    forall k :: 0 <= k < j ==>
      EstimatesFit(force, ImageRow(pixels, stride, w, y, k, flip), PriorRow(pixels, stride, w, y, k, flip), n)
  }

  /** The rows loop, for rows of `w` bytes. */
  method EncodeWide(pixels: seq<byte>, stride: nat, w: nat, y: nat, n: nat, flip: bool, force: int)
    returns (filt: seq<byte>, fits: bool, ghost types: seq<byte>)
    requires n <= w && BufferOk(pixels, stride, w, y)
    ensures fits <==> RowsFit(pixels, stride, w, y, n, flip, force, y)
    ensures RowsEncoded(pixels, stride, w, y, n, flip, force, y, types, filt)
  {
    hide Filtered, ImageRow, PriorRow, IsChoice, BufferOk, RowsEncoded, EstimatesFit;
    var line := new byte[w];
    filt, fits, types := [], true, [];
    RowsEncodedNone(pixels, stride, w, y, n, flip, force);
    for j := 0 to y
      invariant RowsEncoded(pixels, stride, w, y, n, flip, force, j, types, filt)
      invariant fits <==> RowsFit(pixels, stride, w, y, n, flip, force, j)
    {
      var t, fit := ChooseLine(pixels, stride, w, y, j, n, flip, force, line);
      RowsEncodedNext(pixels, stride, w, y, n, flip, force, j, types, filt, t, line[..]);
      filt := filt + [t] + line[..];
      types := types + [t];
      fits := fits && fit;
    }
  }

  /** The filtered image: each row behind the number of its filter; stride 0 stands for adjacent rows. */
  method EncodeRows(pixels: seq<byte>, stride: nat, x: nat, y: nat, n: nat, flip: bool, force: int)
    returns (filt: seq<byte>, fits: bool)
    requires x >= 1 && BufferOk(pixels, RealStride(stride, x, n), x * n, y)
    ensures fits <==> RowsFit(pixels, RealStride(stride, x, n), x * n, y, n, flip, force, y)
    ensures exists types :: RowsEncoded(pixels, RealStride(stride, x, n), x * n, y, n, flip, force, y, types, filt)
  {
    hide BufferOk, RowsEncoded, RowsFit;
    FirstPixel(x, n);
    ghost var types: seq<byte>;
    filt, fits, types := EncodeWide(pixels, RealStride(stride, x, n), x * n, y, n, flip, force);
  }

  function RealStride(stride: nat, x: nat, n: nat): nat {
    if stride == 0 then x * n else stride
  }

  lemma FirstPixel(x: nat, n: nat)
    requires x >= 1
    ensures n <= x * n
  {
    assert x * n == (x - 1) * n + n;
  }

  lemma EncodedNext(pixels: seq<byte>, stride: nat, w: nat, height: nat, n: nat, flip: bool, j: nat,
                    types: seq<byte>, t: byte, line: seq<byte>)
    requires BufferOk(pixels, stride, w, height) && j < height && |types| == j
    requires line == Filtered(t, ImageRow(pixels, stride, w, height, j, flip),
                              PriorRow(pixels, stride, w, height, j, flip), n)
    ensures Concat(Encoded(ImageRows(pixels, stride, w, height, flip, j + 1), types + [t], n, w))
         == Concat(Encoded(ImageRows(pixels, stride, w, height, flip, j), types, n, w)) + [t] + line
  {
    hide Filtered, ImageRow, Concat;
    var rows := ImageRows(pixels, stride, w, height, flip, j + 1);
    assert rows[..j] == ImageRows(pixels, stride, w, height, flip, j) && (types + [t])[..j] == types;
    assert Prior(rows[..j], w) == PriorRow(pixels, stride, w, height, j, flip);
    ConcatSnoc(Encoded(rows[..j], types, n, w), [t] + line);
  }
}
