/**
 The row filters of section 6 of RFC 2083, one byte at a time, and that undoing a
 row's filter restores the row.
 */
module PngFilter {
  import opened Basics
  import opened Bits
  import opened Raster

  function Abs(x: int): nat {
    if x < 0 then -x else x
  }

  function Paeth(a: int, b: int, c: int): int {
    var p := a + b - c;
    var pa, pb, pc := Abs(p - a), Abs(p - b), Abs(p - c);
    if pa <= pb && pa <= pc then a else if pb <= pc then b else c
  }

  /** The neighbour nearest to `a + b - c`, of equally near ones the left, then the upper. */
  lemma PaethIsNearest(a: int, b: int, c: int)
    ensures var p, r := a + b - c, Paeth(a, b, c);
            && r in {a, b, c}
            && Abs(p - r) <= Abs(p - a) && Abs(p - r) <= Abs(p - b) && Abs(p - r) <= Abs(p - c)
            && (Abs(p - a) == Abs(p - r) ==> r == a)
            && (Abs(p - b) == Abs(p - r) ==> r == a || r == b)
  {
  }

  /** The bytes that the filters' sums and differences are kept in. */
  function Add(x: int, p: int): byte {
    (x + p) % 256
  }

  function Sub(x: int, p: int): byte {
    (x - p) % 256
  }

  function Mean(x: int, y: int): int {
    (x + y) / 2
  }

  /** What filter type `t` expects from the bytes to the left, above, and above to the left. */
  function Predict(t: nat, left: byte, up: byte, upLeft: byte): (r: byte) {
    match t
    case 0 => 0
    case 1 => left
    case 2 => up
    case 3 => Mean(left, up)
    case _ => Paeth(left, up, upLeft)
  }

  /** The byte at `i`, 0 outside the row. */
  function At(row: seq<byte>, i: int): byte {
    if 0 <= i < |row| then row[i] else 0
  }

  /** The byte at `i` as predicted from the row's bytes before it and the row above. */
  function Predicted(t: nat, row: seq<byte>, prior: seq<byte>, n: nat, i: nat): byte {
    Predict(t, At(row, i - n), At(prior, i), At(prior, i - n))
  }

  /** A row of pixels of `n` bytes, filtered. */
  function Filtered(t: nat, row: seq<byte>, prior: seq<byte>, n: nat): (r: seq<byte>)
    ensures |r| == |row|
  {
    seq(|row|, i requires 0 <= i < |row| => Sub(row[i], Predicted(t, row, prior, n, i)))
  }

  /** The first `m` bytes of the row whose filtered bytes are `raw`. */
  function Unfiltered(t: nat, raw: seq<byte>, prior: seq<byte>, n: nat, m: nat): (r: seq<byte>)
    requires m <= |raw|
    ensures |r| == m
  {
    if m == 0 then []
    else
      var done := Unfiltered(t, raw, prior, n, m - 1);
      done + [Add(raw[m - 1], Predicted(t, done, prior, n, m - 1))]
  }

  lemma PredictedFromPrefix(t: nat, row: seq<byte>, prior: seq<byte>, n: nat, i: nat)
    requires i <= |row| && n >= 1
    ensures Predicted(t, row[..i], prior, n, i) == Predicted(t, row, prior, n, i)
  {
  }

  lemma {:induction false} UnfilterFiltered(t: nat, row: seq<byte>, prior: seq<byte>, n: nat, m: nat)
    requires n >= 1 && m <= |row|
    ensures Unfiltered(t, Filtered(t, row, prior, n), prior, n, m) == row[..m]
  {
    hide Predicted, Add, Sub;
    if m > 0 {
      UnfilterFiltered(t, row, prior, n, m - 1);
      PredictedFromPrefix(t, row, prior, n, m - 1);
      FilterOne(row[m - 1], Predicted(t, row, prior, n, m - 1));
      assert row[..m] == row[..m - 1] + [row[m - 1]];
    }
  }

  lemma {:induction false} UnfilteredPrefix(t: nat, raw: seq<byte>, prior: seq<byte>, n: nat, m: nat, k: nat)
    requires k <= m <= |raw|
    ensures Unfiltered(t, raw, prior, n, m)[..k] == Unfiltered(t, raw, prior, n, k)
    decreases m
  {
    if k < m {
      UnfilteredPrefix(t, raw, prior, n, m - 1, k);
      var done := Unfiltered(t, raw, prior, n, m - 1);
      assert Unfiltered(t, raw, prior, n, m)[..k] == done[..k];
    }
  }

  lemma UnfilteredAt(t: nat, raw: seq<byte>, prior: seq<byte>, n: nat, i: nat)
    requires n >= 1 && i < |raw|
    ensures var row := Unfiltered(t, raw, prior, n, |raw|);
            row[i] == Add(raw[i], Predicted(t, row, prior, n, i))
  {
    var row := Unfiltered(t, raw, prior, n, |raw|);
    UnfilteredPrefix(t, raw, prior, n, |raw|, i);
    UnfilteredPrefix(t, raw, prior, n, |raw|, i + 1);
    PredictedFromPrefix(t, row, prior, n, i);
    hide Predicted;
    assert row[i] == row[..i + 1][i];
  }

  /** Adding what was subtracted restores a byte, and the other way round. */
  lemma FilterOne(x: byte, p: byte)
    ensures Sub(Add(x, p), p) == x && Add(Sub(x, p), p) == x
  {
    var sum, difference := x + p, x - p;
    assert sum % 256 == if sum < 256 then sum else sum - 256;
    assert difference % 256 == if difference < 0 then difference + 256 else difference;
  }

  /** Filtering is a bijection of rows: every filtered row is the filtered form of the row it is undone to. */
  lemma FilterUnfiltered(t: nat, raw: seq<byte>, prior: seq<byte>, n: nat)
    requires n >= 1
    ensures Filtered(t, Unfiltered(t, raw, prior, n, |raw|), prior, n) == raw
  {
    hide Predict;
    var row := Unfiltered(t, raw, prior, n, |raw|);
    forall i | 0 <= i < |raw| ensures Filtered(t, row, prior, n)[i] == raw[i] {
      UnfilteredAt(t, raw, prior, n, i);
      FilterOne(raw[i], Predicted(t, row, prior, n, i));
    }
  }

  /** The form of a filter for the first row: 5 and 6 are 3 and 4 with nothing above. */
  function FirstMap(t: nat): (kind: nat)
    requires t <= 4
    ensures kind !in {2, 3, 4}
  {
    if t == 2 then 0 else if t == 3 then 5 else if t == 4 then 6 else t
  }

  // ----- rows of an image

  /** The row above the next one. */
  function Prior(rows: seq<seq<byte>>, w: nat): seq<byte> {
    if rows == [] then Fill(0, w) else rows[|rows| - 1]
  }

  /** Each row behind its filter type. */
  function Encoded(rows: seq<seq<byte>>, types: seq<byte>, n: nat, w: nat): (lines: seq<seq<byte>>)
    requires |types| == |rows|
    ensures |lines| == |rows|
    decreases |rows|
  {
    if rows == [] then []
    else
      var m := |rows| - 1;
      Encoded(rows[..m], types[..m], n, w) + [[types[m]] + Filtered(types[m], rows[m], Prior(rows[..m], w), n)]
  }

  /** The rows that lines stand for; none if a filter type is unknown. */
  function Decoded(lines: seq<seq<byte>>, n: nat, w: nat): (rows: Option<seq<seq<byte>>>)
    requires Wide(lines, w + 1)
    ensures rows.Some? ==> |rows.value| == |lines| && Wide(rows.value, w)
    decreases |lines|
  {
    if lines == [] then Some([])
    else
      var m := |lines| - 1;
      match Decoded(lines[..m], n, w)
      case None => None
      case Some(rows) =>
        assert |lines[m]| == w + 1;
        if lines[m][0] > 4 then None
        else Some(rows + [Unfiltered(lines[m][0], lines[m][1..], Prior(rows, w), n, w)])
  }

  lemma {:induction false} EncodedWide(rows: seq<seq<byte>>, types: seq<byte>, n: nat, w: nat)
    requires Wide(rows, w) && |types| == |rows|
    ensures Wide(Encoded(rows, types, n, w), w + 1)
    decreases |rows|
  {
    if rows != [] { EncodedWide(rows[..|rows| - 1], types[..|rows| - 1], n, w); }
  }

  /** Decoding gives back the rows, whatever filter each row was given. */
  lemma {:induction false} DecodedEncoded(rows: seq<seq<byte>>, types: seq<byte>, n: nat, w: nat)
    requires Wide(rows, w) && |types| == |rows| && n >= 1 && forall j :: 0 <= j < |types| ==> types[j] <= 4
    ensures Wide(Encoded(rows, types, n, w), w + 1)
    ensures Decoded(Encoded(rows, types, n, w), n, w) == Some(rows)
    decreases |rows|
  {
    hide Filtered, Unfiltered;
    EncodedWide(rows, types, n, w);
    if rows != [] {
      var m := |rows| - 1;
      DecodedEncoded(rows[..m], types[..m], n, w);
      LastLineDecodes(rows, types, n, w, m);
    }
  }

  lemma LastLineDecodes(rows: seq<seq<byte>>, types: seq<byte>, n: nat, w: nat, m: nat)
    requires Wide(rows, w) && |types| == |rows| == m + 1 && n >= 1 && types[m] <= 4
    requires Wide(Encoded(rows, types, n, w), w + 1) && Wide(Encoded(rows[..m], types[..m], n, w), w + 1)
    requires Decoded(Encoded(rows[..m], types[..m], n, w), n, w) == Some(rows[..m])
    ensures Decoded(Encoded(rows, types, n, w), n, w) == Some(rows)
  {
    var prior := Prior(rows[..m], w);
    var filtered := Filtered(types[m], rows[m], prior, n);
    var lines, last := Encoded(rows[..m], types[..m], n, w), [types[m]] + filtered;
    assert |rows[m]| == w && Encoded(rows, types, n, w) == lines + [last];
    hide Wide, Filtered, Unfiltered, Prior, Encoded;
    assert last[1..] == filtered;
    UnfilterFiltered(types[m], rows[m], prior, n, w);
    assert rows[m][..w] == rows[m] && rows == rows[..m] + [rows[m]];
    DecodedSnoc(lines, last, n, w);
  }

  lemma DecodedSnoc(lines: seq<seq<byte>>, last: seq<byte>, n: nat, w: nat)
    requires Wide(lines, w + 1) && Wide(lines + [last], w + 1) && |last| == w + 1 && last[0] <= 4
    requires Decoded(lines, n, w).Some?
    ensures var rows := Decoded(lines, n, w).value;
            Decoded(lines + [last], n, w) == Some(rows + [Unfiltered(last[0], last[1..], Prior(rows, w), n, w)])
  {
    hide Unfiltered, Prior;
    assert (lines + [last])[..|lines|] == lines;
  }
}
