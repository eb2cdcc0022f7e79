/**
 The PNG reader's row loop: filtered lines to pixels, for every byte sequence it
 may be given.
 */
module PngDecoder {
  import opened Basics
  import opened Bits
  import opened Raster
  import opened PngFilter
  import opened PngRows

  /** A row as the reader stores it: as it is, or with alpha. */
  function Lay(row: seq<byte>, n: nat, outN: nat, x: nat): (r: seq<byte>)
    requires |row| == x * n && n <= outN <= n + 2
    ensures |r| == x * outN
  {
    if outN == n then row else Spread(row, n, outN - n, x)
  }

  function LayAll(rows: seq<seq<byte>>, n: nat, outN: nat, x: nat): (r: seq<seq<byte>>)
    requires Wide(rows, x * n) && n <= outN <= n + 2
    ensures |r| == |rows| && Wide(r, x * outN)
  {
    seq(|rows|, j requires 0 <= j < |rows| => Lay(rows[j], n, outN, x))
  }

  lemma LaySnoc(rows: seq<seq<byte>>, row: seq<byte>, n: nat, outN: nat, x: nat)
    requires Wide(rows, x * n) && |row| == x * n && n <= outN <= n + 2
    ensures Wide(rows + [row], x * n)
    ensures Concat(LayAll(rows + [row], n, outN, x)) == Concat(LayAll(rows, n, outN, x)) + Lay(row, n, outN, x)
  {
    hide Lay, Concat;
    ConcatSnoc(LayAll(rows, n, outN, x), Lay(row, n, outN, x));
    assert LayAll(rows + [row], n, outN, x) == LayAll(rows, n, outN, x) + [Lay(row, n, outN, x)];
  }

  // ----- one row

  /** The row above the one at `cur`. */
  ghost predicate AboveRow(out: seq<byte>, cur: nat, x: nat, n: nat, outN: nat, prior: seq<byte>, first: bool) {
    && |prior| == x * n && cur <= |out| && n <= outN <= n + 2
    && if first then prior == Fill(0, x * n) else x * outN <= cur && out[cur - x * outN..cur] == Lay(prior, n, outN, x)
  }

  method OneRow(raw: seq<byte>, r: nat, out: array<byte>, cur: nat, x: nat, n: nat, outN: nat, filter: nat, first: bool,
                ghost prior: seq<byte>)
    requires 1 <= x && 1 <= n && filter <= 4 && r + x * n <= |raw| && cur + x * outN <= out.Length
    requires AboveRow(out[..], cur, x, n, outN, prior, first)
    modifies out
    ensures out[..] == old(out[..cur]) + Lay(Unfiltered(filter, raw[r..r + x * n], prior, n, x * n), n, outN, x)
                       + old(out[cur + x * outN..])
  {
    hide Unfiltered, Spread;
    var kind := if first then FirstMap(filter) else filter;
    if outN == n {
      MulAtMost(0, x, n);
      FlatRow(raw, r, out, cur, x * n, n, kind, filter, prior, first);
    } else {
      AlphaRow(raw, r, out, cur, x, n, outN - n, kind, filter, prior, first);
    }
  }

  // ----- the image

  /** `NullWrite`: the source writes through the null pointer of an allocation that it has not tested. */
  datatype Status = Ok | TooLarge | NotEnoughPixels | InvalidFilter | NullWrite

  datatype RawResult = Image(rows: seq<seq<byte>>) | Error(status: Status)

  /** The test of a row's size, for samples of `b` bytes, is that for as many single bytes. */
  lemma SizesInBytes(n: nat, x: nat, b: nat)
    requires b >= 1
    ensures SizesValid(n, x, 8 * b, 7) <==> SizesValid(n * b, x, 8, 7)
  {
    var a := n * x;
    assert n * b * x == a * b && n * x * (8 * b) == 8 * (a * b) && n * b * x * 8 == 8 * (a * b);
    if a > 0 { MulMono(a, 1, b); }
  }

  /** The rows that filtered data of an image of `x` by `y` pixels of `n` bytes stand for. */
  function RawRows(raw: seq<byte>, x: nat, y: nat, n: nat, outN: nat): (r: RawResult)
    ensures r.Image? ==> |r.rows| == y && Wide(r.rows, x * n)
    ensures r.Image? ==> |raw| >= (x * n + 1) * y
    ensures r.Error? ==> r.status != Ok && r.status != NullWrite
  {
    if !SizesValid(x, y, outN, 0) || !SizesValid(n, x, 8, 7) then Error(TooLarge)
    else if |raw| < (x * n + 1) * y then Error(NotEnoughPixels)
    else match Decoded(Split(raw[..(x * n + 1) * y], x * n + 1, y), n, x * n)
      case None => Error(InvalidFilter)
      case Some(rows) => Image(rows)
  }

  /** Once a line's filter is unknown, nothing is decoded. */
  lemma {:induction false} BadLineBad(lines: seq<seq<byte>>, n: nat, w: nat, j: nat)
    requires Wide(lines, w + 1) && j < |lines| && |lines[j]| == w + 1 && lines[j][0] > 4
    ensures Decoded(lines, n, w) == None
    decreases |lines|
  {
    if j < |lines| - 1 { BadLineBad(lines[..|lines| - 1], n, w, j); }
  }

  /** Line `j` of the data. */
  lemma LineAt(raw: seq<byte>, lines: seq<seq<byte>>, w: nat, j: nat)
    requires Wide(lines, w) && j < |lines| && Concat(lines) <= raw
    ensures w * j + w <= |raw| && |lines[j]| == w && raw[w * j..w * j + w] == lines[j]
  {
    UpdateAt(lines, w, j, lines[j], w * j);
  }

  /** `r` and `cur` are where line `j` is and goes; the rows before it are in place. */
  ghost predicate RowsDone(lines: seq<seq<byte>>, out: seq<byte>, x: nat, n: nat, outN: nat, w: nat, j: nat,
                           r: nat, cur: nat, rows: seq<seq<byte>>) {
    && w == x * n && n <= outN <= n + 2 && j <= |lines| && Wide(lines, w + 1)
    && r == (w + 1) * j && cur == (x * outN) * j && cur <= |out|
    && Decoded(lines[..j], n, w) == Some(rows)
    && |rows| == j && Wide(rows, w)
    && out[..cur] == Concat(LayAll(rows, n, outN, x))
  }

  lemma DoneAbove(lines: seq<seq<byte>>, out: seq<byte>, x: nat, n: nat, outN: nat, w: nat, j: nat,
                  r: nat, cur: nat, rows: seq<seq<byte>>)
    requires RowsDone(lines, out, x, n, outN, w, j, r, cur, rows)
    ensures AboveRow(out, cur, x, n, outN, Prior(rows, w), j == 0)
  {
    hide Decoded, Lay, Concat;
    if j > 0 {
      var last := rows[j - 1];
      assert rows == rows[..j - 1] + [last] && |last| == w;
      LaySnoc(rows[..j - 1], last, n, outN, x);
      var head := Concat(LayAll(rows[..j - 1], n, outN, x));
      assert out[..cur] == head + Lay(last, n, outN, x);
      assert out[cur - x * outN..cur] == out[..cur][cur - x * outN..];
    }
  }

  lemma DoneNext(lines: seq<seq<byte>>, before: seq<byte>, after: seq<byte>, x: nat, n: nat, outN: nat, w: nat, j: nat,
                 r: nat, cur: nat, rows: seq<seq<byte>>, row: seq<byte>)
    requires RowsDone(lines, before, x, n, outN, w, j, r, cur, rows) && j < |lines|
    requires |lines[j]| == w + 1 && lines[j][0] <= 4
    requires row == Unfiltered(lines[j][0], lines[j][1..], Prior(rows, w), n, w)
    requires cur + x * outN <= |before| && after == before[..cur] + Lay(row, n, outN, x) + before[cur + x * outN..]
    ensures RowsDone(lines, after, x, n, outN, w, j + 1, r + w + 1, cur + x * outN, rows + [row])
  {
    hide Unfiltered, Lay, Concat, LayAll, Decoded;
    assert lines[..j + 1] == lines[..j] + [lines[j]];
    DecodedSnoc(lines[..j], lines[j], n, w);
    LaySnoc(rows, row, n, outN, x);
    NextLine(w + 1, j, r);
    NextLine(x * outN, j, cur);
    hide Wide;
    TakeJoin(before[..cur], Lay(row, n, outN, x), before[cur + x * outN..]);
  }

  lemma NextLine(w: nat, j: nat, r: nat)
    requires r == w * j
    ensures r + w == w * (j + 1)
  {
  }

  lemma TakeJoin<T>(a: seq<T>, b: seq<T>, c: seq<T>)
    ensures (a + b + c)[..|a| + |b|] == a + b
  {
  }

  /** One line of the data; `false` is the source's "invalid filter". */
  method OneLine(raw: seq<byte>, r: nat, out: array<byte>, cur: nat, x: nat, n: nat, outN: nat, j: nat,
                 ghost lines: seq<seq<byte>>, ghost rows: seq<seq<byte>>) returns (ok: bool, ghost row: seq<byte>)
    requires 1 <= x && 1 <= n && j < |lines| && cur + x * outN <= out.Length
    requires RowsDone(lines, out[..], x, n, outN, x * n, j, r, cur, rows) && Concat(lines) <= raw
    modifies out
    ensures ok ==> RowsDone(lines, out[..], x, n, outN, x * n, j + 1, r + x * n + 1, cur + x * outN, rows + [row])
    ensures !ok ==> Decoded(lines, n, x * n) == None
  {
    hide Decoded, Unfiltered, Lay, Concat, LayAll, AboveRow, Prior;
    LineAt(raw, lines, x * n + 1, j);
    var filter: nat := raw[r];
    assert lines[j][0] == filter;
    row := [];
    ok := filter <= 4;
    if !ok {
      BadLineBad(lines, n, x * n, j);
    } else {
      DoneAbove(lines, out[..], x, n, outN, x * n, j, r, cur, rows);
      ghost var before := out[..];
      row := Unfiltered(filter, lines[j][1..], Prior(rows, x * n), n, x * n);
      assert raw[r + 1..r + 1 + x * n] == lines[j][1..];
      OneRow(raw, r + 1, out, cur, x, n, outN, filter, j == 0, Prior(rows, x * n));
      DoneNext(lines, before, out[..], x, n, outN, x * n, j, r, cur, rows, row);
    }
  }

  /**
   The pixels of a filtered image, `n` bytes each, with or without alpha behind them:
   one byte for samples of 8 bits, two for samples of 16 bits, upper bytes first.
   */
  method CreateRaw(raw: seq<byte>, x: nat, y: nat, n: nat, outN: nat) returns (status: Status, out: array<byte>)
    requires 1 <= x && 1 <= n && n <= outN <= n + 2
    ensures fresh(out)
    ensures match RawRows(raw, x, y, n, outN)
            case Image(rows) => status == Ok && out[..] == Concat(LayAll(rows, n, outN, x))
            case Error(e) => status == e
  {
    hide Decoded, Lay, Concat, LayAll, SizesValid, Split;
    out := new byte[0];
    if !SizesValid(x, y, outN, 0) { return TooLarge, out; }
    if !SizesValid(n, x, 8, 7) { return TooLarge, out; }
    if |raw| < (x * n + 1) * y { return NotEnoughPixels, out; }
    ghost var lines := Split(raw[..(x * n + 1) * y], x * n + 1, y);
    var stride := x * outN;
    out := new byte[stride * y](_ => 0);
    status := AllLines(raw, x, y, n, outN, out, lines);
  }

  method AllLines(raw: seq<byte>, x: nat, y: nat, n: nat, outN: nat, out: array<byte>, ghost lines: seq<seq<byte>>)
    returns (status: Status)
    requires 1 <= x && 1 <= n && n <= outN <= n + 2 && out.Length == (x * outN) * y
    requires |lines| == y && Wide(lines, x * n + 1) && Concat(lines) <= raw
    modifies out
    ensures match Decoded(lines, n, x * n)
            case None => status == InvalidFilter
            case Some(rows) => status == Ok && out[..] == Concat(LayAll(rows, n, outN, x))
  {
    hide Decoded, Lay, Concat;
    var r: nat, cur: nat := 0, 0;
    ghost var rows: seq<seq<byte>> := [];
    NothingDone(lines, out[..], x, n, outN);
    for j := 0 to y
      invariant RowsDone(lines, out[..], x, n, outN, x * n, j, r, cur, rows)
    {
      assert cur + x * outN <= out.Length by { NextFits(lines, out[..], x, n, outN, x * n, j, r, cur, rows); }
      hide RowsDone;
      var ok, row := OneLine(raw, r, out, cur, x, n, outN, j, lines, rows);
      if !ok { return InvalidFilter; }
      rows := rows + [row];
      r, cur := r + x * n + 1, cur + x * outN;
    }
    status := Ok;
    assert lines[..y] == lines && out[..cur] == out[..];
  }

  lemma NothingDone(lines: seq<seq<byte>>, out: seq<byte>, x: nat, n: nat, outN: nat)
    requires Wide(lines, x * n + 1) && n <= outN <= n + 2
    ensures RowsDone(lines, out, x, n, outN, x * n, 0, 0, 0, [])
  {
    assert lines[..0] == [] && LayAll([], n, outN, x) == [];
  }

  lemma NextFits(lines: seq<seq<byte>>, out: seq<byte>, x: nat, n: nat, outN: nat, w: nat, j: nat,
                 r: nat, cur: nat, rows: seq<seq<byte>>)
    requires RowsDone(lines, out, x, n, outN, w, j, r, cur, rows) && j < |lines| && |out| == (x * outN) * |lines|
    ensures cur + x * outN <= |out|
  {
    hide Decoded, Lay, Concat, LayAll;
    MulAtMost(j, |lines|, x * outN);
  }
}
