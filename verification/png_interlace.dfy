/**
 Interlaced PNG data: seven filtered images, de-interlaced into one.
 */
module PngInterlace {
  import opened Bits
  import opened Raster
  import opened PngRows
  import opened PngDecoder
  import opened Adam7

  type Pixel = seq<byte>

  // ----- pixels in a decoded image

  /** What the reader adds behind a pixel. */
  function Alpha(n: nat, outN: nat): seq<byte> {
    if outN <= n then [] else Opaque(outN - n)
  }

  /** Pixel `i` of a row as the reader stores it. */
  function PixelOf(row: seq<byte>, n: nat, outN: nat, i: nat): Pixel
    requires i * n + n <= |row|
  {
    row[i * n..i * n + n] + Alpha(n, outN)
  }

  /** The pixel stands at `a` in the row and at `b` in what is stored. */
  lemma LayPixel(row: seq<byte>, n: nat, outN: nat, x: nat, i: nat, a: nat, b: nat)
    requires |row| == x * n && i < x && n <= outN <= n + 2 && a == i * n && b == i * outN
    ensures a + n <= |row| && b + outN <= |Lay(row, n, outN, x)|
    ensures Lay(row, n, outN, x)[b..b + outN] == row[a..a + n] + Alpha(n, outN)
  {
    TimesIs(i, n);
    TimesIs(i, outN);
    TimesIs(x, outN);
    TimesIs(x, n);
    hide Times, Spread;
    MulAtMost(i, x, n);
    MulAtMost(i, x, outN);
    if outN != n {
      var q := outN - n;
      assert n + q == outN;
      SpreadPixel(row, n, q, x, i);
    }
  }

  lemma TimesIs(a: nat, b: nat)
    ensures Times(a, b) == a * b
  {
  }

  lemma PixelPlace(j: nat, x: nat, i: nat, outN: nat)
    ensures (j * x + i) * outN == (x * outN) * j + i * outN
  {
    calc {
      (j * x + i) * outN;
      (j * x) * outN + i * outN;
      { assert (j * x) * outN == j * (x * outN); }
      (x * outN) * j + i * outN;
    }
  }

  /** Where the reader looks for pixel `i` of row `j`: the row is at `a`, and the pixel `b` further. */
  lemma BufferPixel(out: seq<byte>, rows: seq<seq<byte>>, n: nat, outN: nat, x: nat, j: nat, i: nat,
                    w: nat, a: nat, b: nat)
    requires Wide(rows, x * n) && n <= outN <= n + 2 && j < |rows| && i < x
    requires out == Concat(LayAll(rows, n, outN, x)) && w == x * outN && a == w * j && b == i * outN
    ensures |rows[j]| == x * n && i * n + n <= |rows[j]| && a + b + outN <= |out|
    ensures out[a + b..a + b + outN] == PixelOf(rows[j], n, outN, i)
  {
    LayRow(rows, n, outN, x, j);
    PixelInRow(rows[j], n, outN, x, i, w, b);
    hide Concat, LayAll, Lay, PixelOf;
    PartAt(out, LayAll(rows, n, outN, x), w, j, a, b, outN, a + b);
  }

  lemma PixelInRow(row: seq<byte>, n: nat, outN: nat, x: nat, i: nat, w: nat, b: nat)
    requires |row| == x * n && i < x && n <= outN <= n + 2 && w == x * outN && b == i * outN
    ensures i * n + n <= |row| && b + outN <= w == |Lay(row, n, outN, x)|
    ensures Lay(row, n, outN, x)[b..b + outN] == PixelOf(row, n, outN, i)
  {
    hide Lay, Alpha;
    var a := i * n;
    assert |Lay(row, n, outN, x)| == w;
    LayPixel(row, n, outN, x, i, a, b);
  }

  /** The same for any rows and part, without the products. */
  lemma PartAt<T>(s: seq<T>, rows: seq<seq<T>>, w: nat, j: nat, a: nat, b: nat, n: nat, at: nat)
    requires Wide(rows, w) && j < |rows| && s == Concat(rows) && a == w * j && b + n <= w && at == a + b
    ensures at + n <= |s| && |rows[j]| == w && s[at..at + n] == rows[j][b..b + n]
  {
    assert |rows[j]| == w;
    hide Concat, Wide;
    UpdateAt(rows, w, j, rows[j], a);
    SliceOfSlice(s, a, w, b, n);
  }

  lemma LayRow(rows: seq<seq<byte>>, n: nat, outN: nat, x: nat, j: nat)
    requires Wide(rows, x * n) && n <= outN <= n + 2 && j < |rows|
    ensures |rows[j]| == x * n && LayAll(rows, n, outN, x)[j] == Lay(rows[j], n, outN, x)
  {
    hide Lay;
  }

  lemma SliceOfSlice<T>(s: seq<T>, a: nat, w: nat, b: nat, n: nat)
    requires a + w <= |s| && b + n <= w
    ensures s[a + b..a + b + n] == s[a..a + w][b..b + n]
  {
    var t := s[a..a + w];
    var u, v := s[a + b..a + b + n], t[b..b + n];
    assert forall k :: 0 <= k < n ==> u[k] == v[k];
  }

  // ----- the passes

  datatype Passes = Passes(subs: seq<seq<seq<byte>>>) | Failed(status: Status)

  predicate Empty(w: nat, h: nat, p: nat)
    requires w >= 1 && h >= 1 && p < 7
  {
    PassW(w, p) == 0 || PassH(h, p) == 0
  }

  /** How much filtered data a pass has. */
  function PassBytes(w: nat, h: nat, n: nat, p: nat): nat
    requires w >= 1 && h >= 1 && p < 7
  {
    (PassW(w, p) * n + 1) * PassH(h, p)
  }

  /** The rows of the passes from `p` on; no rows for an empty pass, which has no data. */
  function PassImages(data: seq<byte>, w: nat, h: nat, n: nat, outN: nat, p: nat): (r: Passes)
    requires w >= 1 && h >= 1 && p <= 7
    ensures r.Passes? ==> |r.subs| == 7 - p
    ensures r.Failed? ==> r.status != Ok && r.status != NullWrite
    decreases 7 - p
  {
    hide RawRows, PassW, PassH;
    if p == 7 then Passes([])
    else if Empty(w, h, p) then Before([], PassImages(data, w, h, n, outN, p + 1))
    else match RawRows(data, PassW(w, p), PassH(h, p), n, outN)
      case Error(e) => Failed(e)
      case Image(rows) =>
        Before(rows, PassImages(data[PassBytes(w, h, n, p)..], w, h, n, outN, p + 1))
  }

  function Before(rows: seq<seq<byte>>, rest: Passes): Passes {
    match rest
    case Passes(subs) => Passes([rows] + subs)
    case Failed(e) => Failed(e)
  }

  /** The rows of each pass have the pass's size. */
  predicate SubsOk(subs: seq<seq<seq<byte>>>, w: nat, h: nat, n: nat)
    requires w >= 1 && h >= 1
  {
    && |subs| <= 7
    && forall p :: 0 <= p < |subs| && !Empty(w, h, p) ==> |subs[p]| == PassH(h, p) && Wide(subs[p], PassW(w, p) * n)
  }

  /** The pixel of the passes that belongs at column `x` of row `y`. */
  function PassPixel(subs: seq<seq<seq<byte>>>, w: nat, h: nat, n: nat, outN: nat, x: nat, y: nat): Pixel
    requires w >= 1 && h >= 1 && SubsOk(subs, w, h, n) && x < w && y < h && PassOf(x, y) < |subs|
  {
    var p := PassOf(x, y);
    PixelInPass(subs, w, h, n, x, y);
    PixelOf(subs[p][y / YSpc(p)], n, outN, x / XSpc(p))
  }

  lemma PixelInPass(subs: seq<seq<seq<byte>>>, w: nat, h: nat, n: nat, x: nat, y: nat)
    requires w >= 1 && h >= 1 && SubsOk(subs, w, h, n) && x < w && y < h && PassOf(x, y) < |subs|
    ensures var p, i, j := PassOf(x, y), x / XSpc(PassOf(x, y)), y / YSpc(PassOf(x, y));
            && !Empty(w, h, p) && i < PassW(w, p) && j < PassH(h, p) && j < |subs[p]|
            && i * n + n <= |subs[p][j]| == PassW(w, p) * n
  {
    hide PassW, PassH, PassOf, OutX, OutY;
    var p := PassOf(x, y);
    var i, j := x / XSpc(p), y / YSpc(p);
    Bijection(w, h, x, y, p, i, j);
    assert i < PassW(w, p) && j < PassH(h, p);
    MulAtMost(i, PassW(w, p), n);
    var rows := subs[p];
    assert |rows| == PassH(h, p) && Wide(rows, PassW(w, p) * n);
  }

  /** The pixel is written before pixel `i` of row `j` of pass `p`. */
  predicate Earlier(x: nat, y: nat, p: nat, j: nat, i: nat) {
    var q := PassOf(x, y);
    q < p || (q == p && (y / YSpc(q) < j || (y / YSpc(q) == j && x / XSpc(q) < i)))
  }

  /** What has been written so far is right. */
  ghost predicate Placed(final: array2<Pixel>, subs: seq<seq<seq<byte>>>, n: nat, outN: nat, p: nat, j: nat, i: nat)
    requires final.Length0 >= 1 && final.Length1 >= 1 && SubsOk(subs, final.Length1, final.Length0, n)
    requires p <= |subs| && (p < |subs| || (j == 0 && i == 0))
    reads final
  {
    forall y, x :: 0 <= y < final.Length0 && 0 <= x < final.Length1 && Earlier(x, y, p, j, i) ==>
      final[y, x] == PassPixel(subs, final.Length1, final.Length0, n, outN, x, y)
  }

  /** Writing the next pixel of a pass. */
  lemma EarlierStep(w: nat, h: nat, x: nat, y: nat, p: nat, j: nat, i: nat)
    requires w >= 1 && h >= 1 && p < 7
    ensures Earlier(x, y, p, j, i + 1) <==> Earlier(x, y, p, j, i) || (OutX(p, i) == x && OutY(p, j) == y)
  {
    Bijection(w, h, x, y, p, i, j);
  }

  /** A row of a pass ends where the next begins, and a pass where the next begins. */
  lemma EarlierEnds(w: nat, h: nat, x: nat, y: nat, p: nat, j: nat)
    requires w >= 1 && h >= 1 && p < 7 && x < w && y < h
    ensures Earlier(x, y, p, j, PassW(w, p)) <==> Earlier(x, y, p, j + 1, 0)
    ensures Earlier(x, y, p, PassH(h, p), 0) <==> Earlier(x, y, p + 1, 0, 0)
    ensures Empty(w, h, p) ==> (Earlier(x, y, p, 0, 0) <==> Earlier(x, y, p + 1, 0, 0))
  {
    var q := PassOf(x, y);
    Bijection(w, h, x, y, q, x / XSpc(q), y / YSpc(q));
  }

  /** Writes pixel `i` of row `j` of pass `p` to its place. */
  method PlacePixel(out: array<byte>, final: array2<Pixel>, n: nat, outN: nat, p: nat, j: nat, i: nat,
                    ghost subs: seq<seq<seq<byte>>>, ghost w: nat, ghost h: nat)
    requires h == final.Length0 >= 1 && w == final.Length1 >= 1 && SubsOk(subs, w, h, n) && p < 7 && |subs| == p + 1
    requires i < PassW(w, p) && j < PassH(h, p) && n <= outN <= n + 2
    requires out[..] == Concat(LayAll(subs[p], n, outN, PassW(w, p))) && Placed(final, subs, n, outN, p, j, i)
    modifies final
    ensures Placed(final, subs, n, outN, p, j, i + 1)
  {
    hide Concat, LayAll, PassW, PassH, PixelOf, PassOf, OutX, OutY;
    var x := PassW(final.Length1, p);
    var at := (j * x + i) * outN;
    PixelPlace(j, x, i, outN);
    BufferPixel(out[..], subs[p], n, outN, x, j, i, x * outN, (x * outN) * j, i * outN);
    Bijection(w, h, OutX(p, i), OutY(p, j), p, i, j);
    final[OutY(p, j), OutX(p, i)] := out[at..at + outN];
    forall yy, xx | 0 <= yy < h && 0 <= xx < w && Earlier(xx, yy, p, j, i + 1)
      ensures final[yy, xx] == PassPixel(subs, w, h, n, outN, xx, yy)
    {
      EarlierStep(w, h, xx, yy, p, j, i);
      Bijection(w, h, xx, yy, p, i, j);
    }
  }

  /** Copies a decoded pass to its places. */
  method PlacePass(out: array<byte>, final: array2<Pixel>, n: nat, outN: nat, p: nat,
                   ghost subs: seq<seq<seq<byte>>>, ghost w: nat, ghost h: nat)
    requires h == final.Length0 >= 1 && w == final.Length1 >= 1 && SubsOk(subs, w, h, n) && p < 7 && |subs| == p + 1
    requires !Empty(w, h, p) && n <= outN <= n + 2 && Wide(subs[p], PassW(w, p) * n)
    requires out[..] == Concat(LayAll(subs[p], n, outN, PassW(w, p))) && Placed(final, subs, n, outN, p, 0, 0)
    modifies final
    ensures Placed(final, subs, n, outN, p + 1, 0, 0)
  {
    hide Concat, LayAll, PassW, PassH, SubsOk, PassOf;
    for j := 0 to PassH(final.Length0, p)
      invariant Placed(final, subs, n, outN, p, j, 0)
    {
      for i := 0 to PassW(final.Length1, p)
        invariant Placed(final, subs, n, outN, p, j, i)
      {
        hide Placed;
        PlacePixel(out, final, n, outN, p, j, i, subs, w, h);
      }
      forall y, x | 0 <= y < h && 0 <= x < w ensures Earlier(x, y, p, j, PassW(w, p)) <==> Earlier(x, y, p, j + 1, 0) {
        EarlierEnds(w, h, x, y, p, j);
      }
    }
    forall y, x | 0 <= y < h && 0 <= x < w ensures Earlier(x, y, p, PassH(h, p), 0) <==> Earlier(x, y, p + 1, 0, 0) {
      EarlierEnds(w, h, x, y, p, 0);
    }
  }

  /** The passes handled so far and those to come are all the passes. */
  ghost predicate Consumed(data: seq<byte>, rest: seq<byte>, w: nat, h: nat, n: nat, outN: nat, p: nat,
                           subs: seq<seq<seq<byte>>>)
    requires w >= 1 && h >= 1
  {
    && p <= 7 && |subs| == p && SubsOk(subs, w, h, n)
    && PassImages(data, w, h, n, outN, 0) == match PassImages(rest, w, h, n, outN, p)
                                             case Passes(t) => Passes(subs + t)
                                             case Failed(e) => Failed(e)
  }

  lemma ConsumedNone(data: seq<byte>, w: nat, h: nat, n: nat, outN: nat)
    requires w >= 1 && h >= 1
    ensures Consumed(data, data, w, h, n, outN, 0, [])
  {
    hide PassImages;
    var all := PassImages(data, w, h, n, outN, 0);
    if all.Passes? { assert [] + all.subs == all.subs; }
  }

  lemma SubsSnoc(subs: seq<seq<seq<byte>>>, rows: seq<seq<byte>>, w: nat, h: nat, n: nat)
    requires w >= 1 && h >= 1 && SubsOk(subs, w, h, n) && |subs| < 7
    requires !Empty(w, h, |subs|) ==> |rows| == PassH(h, |subs|) && Wide(rows, PassW(w, |subs|) * n)
    ensures SubsOk(subs + [rows], w, h, n)
  {
    hide PassW, PassH, Wide;
    var more := subs + [rows];
    forall p | 0 <= p < |more| && !Empty(w, h, p) ensures |more[p]| == PassH(h, p) && Wide(more[p], PassW(w, p) * n) {
      if p < |subs| { assert more[p] == subs[p]; }
    }
  }

  lemma EmptyPass(rest: seq<byte>, w: nat, h: nat, n: nat, outN: nat, p: nat)
    requires w >= 1 && h >= 1 && p < 7 && Empty(w, h, p)
    ensures PassImages(rest, w, h, n, outN, p) == Before([], PassImages(rest, w, h, n, outN, p + 1))
  {
    hide RawRows, PassW, PassH;
  }

  lemma NextPass(rest: seq<byte>, w: nat, h: nat, n: nat, outN: nat, p: nat)
    requires w >= 1 && h >= 1 && p < 7 && !Empty(w, h, p)
    ensures match RawRows(rest, PassW(w, p), PassH(h, p), n, outN)
            case Image(rows) =>
              PassBytes(w, h, n, p) <= |rest|
              && PassImages(rest, w, h, n, outN, p)
                 == Before(rows, PassImages(rest[PassBytes(w, h, n, p)..], w, h, n, outN, p + 1))
            case Error(e) => PassImages(rest, w, h, n, outN, p) == Failed(e)
  {
    hide RawRows, PassW, PassH;
  }

  /** After the last pass. */
  lemma ConsumedAll(data: seq<byte>, rest: seq<byte>, w: nat, h: nat, n: nat, outN: nat, subs: seq<seq<seq<byte>>>)
    requires w >= 1 && h >= 1 && Consumed(data, rest, w, h, n, outN, 7, subs)
    ensures PassImages(data, w, h, n, outN, 0) == Passes(subs) && SubsOk(subs, w, h, n)
  {
    hide SubsOk, RawRows;
    assert PassImages(rest, w, h, n, outN, 7) == Passes([]) && subs + [] == subs;
  }

  /** Handling pass `p`, whose rows come first of those still to come. */
  lemma ConsumedMore(data: seq<byte>, rest: seq<byte>, next: seq<byte>, w: nat, h: nat, n: nat, outN: nat, p: nat,
                     subs: seq<seq<seq<byte>>>, rows: seq<seq<byte>>)
    requires w >= 1 && h >= 1 && p < 7 && Consumed(data, rest, w, h, n, outN, p, subs) && SubsOk(subs + [rows], w, h, n)
    requires PassImages(rest, w, h, n, outN, p) == Before(rows, PassImages(next, w, h, n, outN, p + 1))
    ensures Consumed(data, next, w, h, n, outN, p + 1, subs + [rows])
  {
    hide PassImages, SubsOk;
    var tail := PassImages(next, w, h, n, outN, p + 1);
    if tail.Passes? { assert subs + ([rows] + tail.subs) == subs + [rows] + tail.subs; }
  }

  lemma PlacedMore(final: array2<Pixel>, subs: seq<seq<seq<byte>>>, more: seq<seq<seq<byte>>>, n: nat, outN: nat,
                   p: nat)
    requires final.Length0 >= 1 && final.Length1 >= 1 && p == |subs| && SubsOk(subs, final.Length1, final.Length0, n)
    requires subs <= more && SubsOk(more, final.Length1, final.Length0, n) && Placed(final, subs, n, outN, p, 0, 0)
    ensures Placed(final, more, n, outN, p, 0, 0)
  {
    hide PassOf, PixelOf, SubsOk;
    forall y, x | 0 <= y < final.Length0 && 0 <= x < final.Length1 && Earlier(x, y, p, 0, 0)
      ensures PassPixel(more, final.Length1, final.Length0, n, outN, x, y)
           == PassPixel(subs, final.Length1, final.Length0, n, outN, x, y)
    {
      assert more[PassOf(x, y)] == subs[PassOf(x, y)];
    }
  }

  /** What becomes of the image when the whole of it cannot be allocated: its first pass is never empty. */
  function WithoutImage(data: seq<byte>, w: nat, h: nat, n: nat, outN: nat): Status
    requires w >= 1 && h >= 1
  {
    match RawRows(data, PassW(w, 0), PassH(h, 0), n, outN)
    case Error(e) => e
    case Image(_) => NullWrite
  }

  /** Decodes interlaced data and puts every pixel in its place. */
  method CreatePngImage(data: seq<byte>, w: nat, h: nat, n: nat, outN: nat)
    returns (status: Status, final: array2<Pixel>)
    requires w >= 1 && h >= 1 && n >= 1 && n <= outN <= n + 2
    ensures fresh(final)
    ensures !SizesValid(w, h, outN, 0) ==> status == WithoutImage(data, w, h, n, outN)
    ensures SizesValid(w, h, outN, 0) ==>
              match PassImages(data, w, h, n, outN, 0)
              case Failed(e) => status == e
              case Passes(subs) =>
                && status == Ok && SubsOk(subs, w, h, n) && final.Length0 == h && final.Length1 == w
                && forall y, x :: 0 <= y < h && 0 <= x < w ==> final[y, x] == PassPixel(subs, w, h, n, outN, x, y)
  {
    if SizesValid(w, h, outN, 0) {
      status, final := FillImage(data, w, h, n, outN);
    } else {
      final := new Pixel[0, 0];
      var out;
      status, out := CreateRaw(data, PassW(w, 0), PassH(h, 0), n, outN);
      if status == Ok { return NullWrite, final; }
    }
  }

  /** The loop over the passes, with an image to write to. */
  method FillImage(data: seq<byte>, w: nat, h: nat, n: nat, outN: nat) returns (status: Status, final: array2<Pixel>)
    requires w >= 1 && h >= 1 && n >= 1 && n <= outN <= n + 2
    ensures fresh(final) && final.Length0 == h && final.Length1 == w
    ensures match PassImages(data, w, h, n, outN, 0)
            case Failed(e) => status == e
            case Passes(subs) =>
              && status == Ok && SubsOk(subs, w, h, n)
              && forall y, x :: 0 <= y < h && 0 <= x < w ==> final[y, x] == PassPixel(subs, w, h, n, outN, x, y)
  {
    hide PassImages, PassW, PassH, SubsOk, PassOf, Concat, LayAll, RawRows;
    final := new Pixel[h, w]((_, _) => []);
    var rest := data;
    ghost var subs: seq<seq<seq<byte>>> := [];
    ConsumedNone(data, w, h, n, outN);
    for p := 0 to 7
      invariant Consumed(data, rest, w, h, n, outN, p, subs) && Placed(final, subs, n, outN, p, 0, 0)
    {
      var x, y := PassW(w, p), PassH(h, p);
      if x == 0 || y == 0 {
        SubsSnoc(subs, [], w, h, n);
        EmptyPass(rest, w, h, n, outN, p);
        ConsumedMore(data, rest, rest, w, h, n, outN, p, subs, []);
        PlacedMore(final, subs, subs + [[]], n, outN, p);
        subs := subs + [[]];
        forall v, u | 0 <= v < h && 0 <= u < w ensures Earlier(u, v, p, 0, 0) <==> Earlier(u, v, p + 1, 0, 0) {
          EarlierEnds(w, h, u, v, p, 0);
        }
      } else {
        var out;
        status, out := CreateRaw(rest, x, y, n, outN);
        NextPass(rest, w, h, n, outN, p);
        if status != Ok { return; }
        ghost var rows := RawRows(rest, x, y, n, outN).rows;
        var len := PassBytes(w, h, n, p);
        SubsSnoc(subs, rows, w, h, n);
        ConsumedMore(data, rest, rest[len..], w, h, n, outN, p, subs, rows);
        PlacedMore(final, subs, subs + [rows], n, outN, p);
        subs := subs + [rows];
        PlacePass(out, final, n, outN, p, subs, w, h);
        rest := rest[len..];
      }
    }
    status := Ok;
    ConsumedAll(data, rest, w, h, n, outN, subs);
    forall y, x | 0 <= y < h && 0 <= x < w ensures Earlier(x, y, 7, 0, 0) {}
  }
}
