/** The PNG writer and reader together, but for the chunks around the compressed data. */
module Png {
  import opened Basics
  import opened Bits
  import opened Raster
  import opened PngFilter
  import opened PngEncoder
  import opened PngDecoder
  import Zlib

  /** Filtering, in whatever way, and undoing the filters gives back the pixels, whatever bytes follow. */
  lemma FilteredReadBack(rows: seq<seq<byte>>, types: seq<byte>, x: nat, y: nat, n: nat, outN: nat, raw: seq<byte>)
    requires 1 <= x && 1 <= n <= outN <= n + 2 && |rows| == |types| == y && Wide(rows, x * n)
    requires forall j :: 0 <= j < y ==> types[j] <= 4
    requires Concat(Encoded(rows, types, n, x * n)) <= raw
    ensures |Concat(Encoded(rows, types, n, x * n))| == (x * n + 1) * y
    ensures RawRows(raw, x, y, n, outN)
         == if SizesValid(x, y, outN, 0) && SizesValid(n, x, 8, 7) then Image(rows) else Error(TooLarge)
  {
    hide Decoded, Concat, SizesValid, Split, Encoded;
    var lines := Encoded(rows, types, n, x * n);
    DecodedEncoded(rows, types, n, x * n);
    SplitConcat(lines, x * n + 1);
    assert raw[..(x * n + 1) * y] == Concat(lines);
  }

  lemma RowsReadBack(pixels: seq<byte>, stride: nat, x: nat, y: nat, n: nat, flip: bool, force: int,
                     types: seq<byte>, filt: seq<byte>, outN: nat)
    requires 1 <= x && 1 <= n && (outN == n || outN == n + 1) && BufferOk(pixels, stride, x * n, y)
    requires RowsEncoded(pixels, stride, x * n, y, n, flip, force, y, types, filt)
    ensures RawRows(filt, x, y, n, outN)
         == if SizesValid(x, y, outN, 0) && SizesValid(n, x, 8, 7)
            then Image(ImageRows(pixels, stride, x * n, y, flip, y))
            else Error(TooLarge)
  {
    hide BufferOk, ImageRow, Encoded, Concat, SizesValid, RawRows, IsChoice;
    FilteredReadBack(ImageRows(pixels, stride, x * n, y, flip, y), types, x, y, n, outN, filt);
  }

  /** The sizes of a line and of the filtered image, and the place of the last row. */
  predicate PlacesFit(stride: nat, x: nat, y: nat, n: nat) {
    x * n + 1 <= INT_MAX && (x * n + 1) * y <= INT_MAX && (y > 0 ==> stride * (y - 1) <= INT_MAX)
  }

  /** The sizes, the places of rows and the estimates that the writer computes in an `int` fit. */
  predicate WriterFits(pixels: seq<byte>, stride: nat, x: nat, y: nat, n: nat, flip: bool, force: int)
    requires BufferOk(pixels, stride, x * n, y)
  {
    PlacesFit(stride, x, y, n) && RowsFit(pixels, stride, x * n, y, n, flip, force, y)
  }

  /**
   What the reader makes of the writer's compressed data is the writer's image, for
   every stride, filter and quality, exactly when the sizes fit an `int`: `fits` says
   it of the filters of the writer, whose numbers are only then those of the code, and
   `status` of the reader.
   */
  method WriteAndRead(pixels: seq<byte>, stride: nat, x: nat, y: nat, n: nat, flip: bool, force: int, quality: int,
                      outN: nat)
    returns (fits: bool, status: Status, out: array<byte>)
    requires 1 <= x && 1 <= n && (outN == n || outN == n + 1) && BufferOk(pixels, RealStride(stride, x, n), x * n, y)
    ensures fits <==> WriterFits(pixels, RealStride(stride, x, n), x, y, n, flip, force)
    ensures status == Ok <==> SizesValid(x, y, outN, 0) && SizesValid(n, x, 8, 7)
    ensures status == Ok ==>
              out[..] == Concat(LayAll(ImageRows(pixels, RealStride(stride, x, n), x * n, y, flip, y), n, outN, x))
  {
    hide BufferOk, ImageRow, Encoded, Concat, LayAll, SizesValid, RawRows, RowsEncoded, RowsFit, PlacesFit;
    var filt, rowsFit := EncodeRows(pixels, stride, x, y, n, flip, force);
    fits := rowsFit && PlacesFit(RealStride(stride, x, n), x, y, n);
    ghost var types :| RowsEncoded(pixels, RealStride(stride, x, n), x * n, y, n, flip, force, y, types, filt);
    var inflated, raw := Zlib.CompressAndInflate(filt, quality);
    RowsReadBack(pixels, RealStride(stride, x, n), x, y, n, flip, force, types, filt, outN);
    status, out := CreateRaw(raw, x, y, n, outN);
  }
}
