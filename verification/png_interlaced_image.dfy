/**
 Interlacing an image as section 2.6 of RFC 2083 describes it, and that the reader
 restores it, whatever filters its lines were given.
 */
module PngInterlacedImage {
  import opened Basics
  import opened Bits
  import opened Raster
  import opened PngFilter
  import opened PngDecoder
  import opened Adam7
  import opened Png
  import opened PngInterlace

  /** `h` rows of `w` pixels of `n` bytes. */
  predicate ImageOk(img: seq<seq<Pixel>>, w: nat, h: nat, n: nat) {
    |img| == h && Wide(img, w) && forall y :: 0 <= y < h ==> Wide(img[y], n)
  }

  /** The pixels of row `j` of pass `p`. */
  function SubPixels(img: seq<seq<Pixel>>, w: nat, h: nat, n: nat, p: nat, j: nat): (r: seq<Pixel>)
    requires w >= 1 && h >= 1 && ImageOk(img, w, h, n) && p < 7 && j < PassH(h, p)
    ensures |r| == PassW(w, p) && Wide(r, n)
  {
    PassFits(h, p, j);
    assert |img[OutY(p, j)]| == w && Wide(img[OutY(p, j)], n);
    seq(PassW(w, p), i requires 0 <= i < PassW(w, p) => Column(img[OutY(p, j)], w, p, i))
  }

  function Column(row: seq<Pixel>, w: nat, p: nat, i: nat): Pixel
    requires w >= 1 && |row| == w && p < 7 && i < PassW(w, p)
  {
    PassFits(w, p, i);
    row[OutX(p, i)]
  }

  function SubImage(img: seq<seq<Pixel>>, w: nat, h: nat, n: nat, p: nat): (rows: seq<seq<byte>>)
    requires w >= 1 && h >= 1 && ImageOk(img, w, h, n) && p < 7
    ensures |rows| == PassH(h, p)
  {
    seq(PassH(h, p), j requires 0 <= j < PassH(h, p) => Concat(SubPixels(img, w, h, n, p, j)))
  }

  lemma SubImageWide(img: seq<seq<Pixel>>, w: nat, h: nat, n: nat, p: nat)
    requires w >= 1 && h >= 1 && ImageOk(img, w, h, n) && p < 7
    ensures Wide(SubImage(img, w, h, n, p), PassW(w, p) * n)
  {
    hide Concat, PassW, PassH, ImageOk;
    forall j | 0 <= j < PassH(h, p) ensures |Concat(SubPixels(img, w, h, n, p, j))| == PassW(w, p) * n {
      ConcatLength(SubPixels(img, w, h, n, p, j), n);
    }
  }

  /** The sub-images of the passes from `p` on; none for an empty pass. */
  function SubImages(img: seq<seq<Pixel>>, w: nat, h: nat, n: nat, p: nat): (subs: seq<seq<seq<byte>>>)
    requires w >= 1 && h >= 1 && ImageOk(img, w, h, n) && p <= 7
    ensures |subs| == 7 - p
    decreases 7 - p
  {
    if p == 7 then [] else [SubRows(img, w, h, n, p)] + SubImages(img, w, h, n, p + 1)
  }

  /** The rows of a pass; none if it is empty. */
  function SubRows(img: seq<seq<Pixel>>, w: nat, h: nat, n: nat, p: nat): seq<seq<byte>>
    requires w >= 1 && h >= 1 && ImageOk(img, w, h, n) && p < 7
  {
    if Empty(w, h, p) then [] else SubImage(img, w, h, n, p)
  }

  lemma {:induction false} SubImagesAt(img: seq<seq<Pixel>>, w: nat, h: nat, n: nat, p: nat, q: nat)
    requires w >= 1 && h >= 1 && ImageOk(img, w, h, n) && p <= q < 7
    ensures SubImages(img, w, h, n, p)[q - p] == SubRows(img, w, h, n, q)
    decreases 7 - p
  {
    hide SubRows, ImageOk;
    if p < q { SubImagesAt(img, w, h, n, p + 1, q); }
  }

  /** A filter for every line of every pass. */
  predicate TypesOk(types: seq<seq<byte>>, h: nat)
    requires h >= 1
  {
    && |types| == 7
    && forall p :: 0 <= p < 7 ==>
         |types[p]| == PassH(h, p) && forall j :: 0 <= j < |types[p]| ==> types[p][j] <= 4
  }

  /** The filtered data of the passes from `p` on. */
  function Interlaced(img: seq<seq<Pixel>>, types: seq<seq<byte>>, w: nat, h: nat, n: nat, p: nat): seq<byte>
    requires w >= 1 && h >= 1 && ImageOk(img, w, h, n) && TypesOk(types, h) && p <= 7
    decreases 7 - p
  {
    if p == 7 then []
    else (if Empty(w, h, p) then [] else Concat(Encoded(SubImage(img, w, h, n, p), types[p], n, PassW(w, p) * n)))
         + Interlaced(img, types, w, h, n, p + 1)
  }

  predicate PassSizeOk(w: nat, h: nat, n: nat, outN: nat, p: nat)
    requires w >= 1 && h >= 1 && p < 7
  {
    Empty(w, h, p) || (SizesValid(PassW(w, p), PassH(h, p), outN, 0) && SizesValid(n, PassW(w, p), 8, 7))
  }

  /** No pass from `p` on is too large. */
  predicate SizesOk(w: nat, h: nat, n: nat, outN: nat, p: nat)
    requires w >= 1 && h >= 1 && p <= 7
    decreases 7 - p
  {
    p == 7 || (PassSizeOk(w, h, n, outN, p) && SizesOk(w, h, n, outN, p + 1))
  }

  lemma {:induction false} SizesOkAll(w: nat, h: nat, n: nat, outN: nat, p: nat)
    requires w >= 1 && h >= 1 && p <= 7
    ensures SizesOk(w, h, n, outN, p) <==> forall q :: p <= q < 7 ==> PassSizeOk(w, h, n, outN, q)
    decreases 7 - p
  {
    hide PassSizeOk;
    if p < 7 { SizesOkAll(w, h, n, outN, p + 1); }
  }

  /** The reader finds in the data the sub-images, unless a pass is too large. */
  lemma {:induction false} PassesReadBack(img: seq<seq<Pixel>>, types: seq<seq<byte>>, w: nat, h: nat, n: nat,
                                          outN: nat, p: nat, data: seq<byte>)
    requires w >= 1 && h >= 1 && ImageOk(img, w, h, n) && TypesOk(types, h) && p <= 7 && n >= 1
             && n <= outN <= n + 2
    requires Interlaced(img, types, w, h, n, p) <= data
    ensures PassImages(data, w, h, n, outN, p)
         == if SizesOk(w, h, n, outN, p) then Passes(SubImages(img, w, h, n, p)) else Failed(TooLarge)
    decreases 7 - p
  {
    hide ImageOk, TypesOk, Interlaced, PassImages, PassSizeOk, SubRows;
    if p == 7 {
      NoPassLeft(data, w, h, n, outN);
    } else {
      var rest := OnePassReadBack(img, types, w, h, n, outN, p, data);
      PassesReadBack(img, types, w, h, n, outN, p + 1, rest);
    }
  }

  lemma NoPassLeft(data: seq<byte>, w: nat, h: nat, n: nat, outN: nat)
    requires w >= 1 && h >= 1
    ensures PassImages(data, w, h, n, outN, 7) == Passes([])
  {
  }

  /** The first pass still to come is found, and the data of the others behind it. */
  lemma OnePassReadBack(img: seq<seq<Pixel>>, types: seq<seq<byte>>, w: nat, h: nat, n: nat, outN: nat, p: nat,
                        data: seq<byte>) returns (rest: seq<byte>)
    requires w >= 1 && h >= 1 && ImageOk(img, w, h, n) && TypesOk(types, h) && p < 7 && n >= 1
             && n <= outN <= n + 2
    requires Interlaced(img, types, w, h, n, p) <= data
    ensures Interlaced(img, types, w, h, n, p + 1) <= rest
    ensures PassImages(data, w, h, n, outN, p)
         == if PassSizeOk(w, h, n, outN, p)
            then Before(SubRows(img, w, h, n, p), PassImages(rest, w, h, n, outN, p + 1))
            else Failed(TooLarge)
  {
    hide Concat, Encoded, SubImage, RawRows, PassW, PassH, SizesValid, ImageOk, TypesOk, PassImages, PassBytes;
    if Empty(w, h, p) {
      EmptyPass(data, w, h, n, outN, p);
      assert Interlaced(img, types, w, h, n, p) == Interlaced(img, types, w, h, n, p + 1);
      rest := data;
    } else {
      PassReadBack(img, types, w, h, n, outN, p, data);
      hide Interlaced;
      NextPass(data, w, h, n, outN, p);
      rest := data[PassBytes(w, h, n, p)..];
    }
  }

  lemma PassReadBack(img: seq<seq<Pixel>>, types: seq<seq<byte>>, w: nat, h: nat, n: nat, outN: nat, p: nat,
                     data: seq<byte>)
    requires w >= 1 && h >= 1 && ImageOk(img, w, h, n) && TypesOk(types, h) && p < 7 && n >= 1
             && n <= outN <= n + 2
    requires !Empty(w, h, p) && Interlaced(img, types, w, h, n, p) <= data
    ensures RawRows(data, PassW(w, p), PassH(h, p), n, outN)
         == if PassSizeOk(w, h, n, outN, p) then Image(SubImage(img, w, h, n, p)) else Error(TooLarge)
    ensures PassBytes(w, h, n, p) <= |data|
    ensures Interlaced(img, types, w, h, n, p + 1) <= data[PassBytes(w, h, n, p)..]
  {
    hide Concat, Encoded, SubImage, RawRows, PassW, PassH, SizesValid, ImageOk;
    SubImageWide(img, w, h, n, p);
    var first := Concat(Encoded(SubImage(img, w, h, n, p), types[p], n, PassW(w, p) * n));
    var rest := Interlaced(img, types, w, h, n, p + 1);
    assert Interlaced(img, types, w, h, n, p) == first + rest;
    PrefixSplit(first, rest, data);
    FilteredReadBack(SubImage(img, w, h, n, p), types[p], PassW(w, p), PassH(h, p), n, outN, data);
  }

  lemma PrefixSplit(a: seq<byte>, b: seq<byte>, s: seq<byte>)
    requires a + b <= s
    ensures a <= s && b <= s[|a|..]
  {
    assert s[..|a + b|] == a + b;
    assert s[..|a|] == (a + b)[..|a|];
    assert s[|a|..][..|b|] == (a + b)[|a|..];
  }

  /** The bytes of pixel `i` of row `j` of a sub-image. */
  lemma SubPixel(img: seq<seq<Pixel>>, w: nat, h: nat, n: nat, p: nat, j: nat, i: nat, row: seq<byte>, pixel: Pixel)
    requires w >= 1 && h >= 1 && ImageOk(img, w, h, n) && p < 7 && j < PassH(h, p) && i < PassW(w, p)
    requires row == SubImage(img, w, h, n, p)[j] && pixel == SubPixels(img, w, h, n, p, j)[i]
    ensures i * n + n <= |row| && row[i * n..i * n + n] == pixel
  {
    hide Concat, SubPixels, SubImage, ImageOk, Wide, PassW, PassH;
    SubRow(img, w, h, n, p, j);
    PixelSlice(SubPixels(img, w, h, n, p, j), n, i);
  }

  lemma PixelSlice(pixels: seq<Pixel>, n: nat, i: nat)
    requires Wide(pixels, n) && i < |pixels|
    ensures i * n + n <= |Concat(pixels)| && Concat(pixels)[i * n..i * n + n] == pixels[i]
  {
    assert |pixels[i]| == n;
    hide Concat, Wide;
    UpdateAt(pixels, n, i, pixels[i], n * i);
    Commutes(i, n);
  }

  lemma SubRow(img: seq<seq<Pixel>>, w: nat, h: nat, n: nat, p: nat, j: nat)
    requires w >= 1 && h >= 1 && ImageOk(img, w, h, n) && p < 7 && j < PassH(h, p)
    ensures SubImage(img, w, h, n, p)[j] == Concat(SubPixels(img, w, h, n, p, j))
  {
    hide Concat, SubPixels, ImageOk, PassH;
  }

  lemma SubPixelAt(img: seq<seq<Pixel>>, w: nat, h: nat, n: nat, p: nat, j: nat, i: nat)
    requires w >= 1 && h >= 1 && ImageOk(img, w, h, n) && p < 7 && j < PassH(h, p) && i < PassW(w, p)
    ensures OutX(p, i) < w && OutY(p, j) < h == |img| && |img[OutY(p, j)]| == w
    ensures var pixel := SubPixels(img, w, h, n, p, j)[i]; pixel == img[OutY(p, j)][OutX(p, i)] && |pixel| == n
  {
    hide PassW, PassH, OutX, OutY;
    PassFits(w, p, i);
    PassFits(h, p, j);
  }

  lemma Commutes(i: nat, n: nat)
    ensures i * n == n * i
  {
  }

  /** The pixel that the reader takes from its pass is the pixel of the image. */
  lemma PixelReadBack(img: seq<seq<Pixel>>, w: nat, h: nat, n: nat, outN: nat, x: nat, y: nat)
    requires w >= 1 && h >= 1 && ImageOk(img, w, h, n) && x < w && y < h && SubsOk(SubImages(img, w, h, n, 0), w, h, n)
    ensures |img| == h && |img[y]| == w
    ensures PassPixel(SubImages(img, w, h, n, 0), w, h, n, outN, x, y) == img[y][x] + Alpha(n, outN)
  {
    hide PassOf, SubImages, SubImage, ImageOk, PassW, PassH, SubsOk;
    var p := PassOf(x, y);
    var i, j := x / XSpc(p), y / YSpc(p);
    var subs := SubImages(img, w, h, n, 0);
    PixelInPass(subs, w, h, n, x, y);
    Bijection(w, h, x, y, p, i, j);
    SubImagesAt(img, w, h, n, 0, p);
    SubPixelAt(img, w, h, n, p, j, i);
    SubPixel(img, w, h, n, p, j, i, subs[p][j], img[y][x]);
  }

  /**
   Every image, interlaced and filtered in whatever way, is read as itself, with
   opaque alpha if the reader adds it, exactly when neither the image nor a pass is
   too large; a first pass that is not, of an image that is, goes through a null pointer.
   */
  method InterlacedReadBack(img: seq<seq<Pixel>>, types: seq<seq<byte>>, w: nat, h: nat, n: nat, outN: nat)
    returns (status: Status, final: array2<Pixel>)
    requires w >= 1 && h >= 1 && ImageOk(img, w, h, n) && TypesOk(types, h) && n >= 1 && n <= outN <= n + 2
    ensures status == Ok <==> SizesValid(w, h, outN, 0) && forall p :: 0 <= p < 7 ==> PassSizeOk(w, h, n, outN, p)
    ensures status == NullWrite <==> !SizesValid(w, h, outN, 0) && PassSizeOk(w, h, n, outN, 0)
    ensures status == Ok ==> final.Length0 == h && final.Length1 == w
    ensures status == Ok ==> forall y, x :: 0 <= y < h && 0 <= x < w ==>
              |img[y]| == w && final[y, x] == img[y][x] + Alpha(n, outN)
  {
    var data := Interlaced(img, types, w, h, n, 0);
    SizesOkAll(w, h, n, outN, 0);
    PassesReadBack(img, types, w, h, n, outN, 0, data);
    PassReadBack(img, types, w, h, n, outN, 0, data);
    hide PassSizeOk, SizesOk, PassPixel, SubImages, PassImages, SubsOk, Interlaced, TypesOk, SizesValid, RawRows;
    status, final := CreatePngImage(data, w, h, n, outN);
    if status == Ok {
      forall y, x | 0 <= y < h && 0 <= x < w
        ensures |img[y]| == w && final[y, x] == img[y][x] + Alpha(n, outN)
      {
        PixelReadBack(img, w, h, n, outN, x, y);
      }
    }
  }

  // ----- which images are too large to allocate

  /** The test of the header of an image without palette; the quotients are rounded down. */
  predicate PassesHeader(w: nat, h: nat, n: nat)
    requires w >= 1 && n >= 1
  {
    0x4000_0000 / w / n >= h
  }

  lemma Quotient(a: nat, b: nat, c: nat)
    requires b >= 1
    ensures c <= a / b <==> b * c <= a
  {
    var q := a / b;
    assert b * q <= a < b * q + b;
    if c <= q { MulMono(b, c, q); } else { MulMono(b, q + 1, c); }
  }

  lemma HeaderIsProduct(w: nat, h: nat, n: nat)
    requires w >= 1 && n >= 1
    ensures PassesHeader(w, h, n) <==> w * (n * h) <= 0x4000_0000
  {
    Quotient(0x4000_0000 / w, n, h);
    Quotient(0x4000_0000, w, n * h);
  }

  /**
   The sizes that the header lets through and that cannot be allocated, for `n`
   samples of `b` bytes a pixel in the file and `outN` in the image. At one byte it
   is just one: 2^30 grey pixels to which alpha is added. At two bytes it is 2^30
   samples without added alpha, and from 2^30 samples on with it.
   */
  lemma HeaderLeaves(w: nat, h: nat, n: nat, outN: nat, b: nat)
    requires w >= 1 && h >= 1 && 1 <= n <= 4 && n <= outN <= n + 1 && 1 <= b <= 2 && PassesHeader(w, h, n)
    ensures !SizesValid(w, h, outN * b, 0) <==>
            if b == 1 then n == 1 && outN == 2 && w * h == 0x4000_0000
            else if outN == n then w * h * n == 0x4000_0000
            else w * h * (n + 1) >= 0x4000_0000
  {
    HeaderIsProduct(w, h, n);
    hide PassesHeader;
    MulSwap(w, n, h);
    SizesOfArea(w * h, n, outN, b);
  }

  lemma MulSwap(w: nat, n: nat, h: nat)
    ensures w * (n * h) == w * h * n
  {
  }

  lemma SizesOfArea(a: nat, n: nat, outN: nat, b: nat)
    requires 1 <= n <= 4 && n <= outN <= n + 1 && 1 <= b <= 2 && a * n <= 0x4000_0000
    ensures a * (outN * b) > INT_MAX <==>
            if b == 1 then n == 1 && outN == 2 && a == 0x4000_0000
            else if outN == n then a * n == 0x4000_0000
            else a * (n + 1) >= 0x4000_0000
    ensures a <= INT_MAX
  {
    if b == 1 {
      if n == 1 {} else if n == 2 {} else if n == 3 {} else {}
    } else {
      if n == 1 {} else if n == 2 {} else if n == 3 {} else {}
    }
  }

  /**
   Such images, all of whose passes can be decoded: 32768 by 32768 grey pixels of 8
   bits to which alpha is added or of 16 bits, and 16384 by 16384 RGB pixels of 16
   bits to which alpha is added.
   */
  lemma ImagesWithoutMemory()
    ensures PassesHeader(32768, 32768, 1) && !SizesValid(32768, 32768, 2, 0)
    ensures forall p :: 0 <= p < 7 ==> PassSizeOk(32768, 32768, 1, 2, p) && PassSizeOk(32768, 32768, 2, 2, p)
    ensures PassesHeader(16384, 16384, 3) && !SizesValid(16384, 16384, 8, 0)
    ensures forall p :: 0 <= p < 7 ==> PassSizeOk(16384, 16384, 6, 8, p)
  {
    hide PassW, PassH;
    forall p | 0 <= p < 7
      ensures PassSizeOk(32768, 32768, 1, 2, p) && PassSizeOk(32768, 32768, 2, 2, p)
      ensures PassSizeOk(16384, 16384, 6, 8, p)
    {
      LargePass(p);
    }
  }

  /** The longest sides are those of the last pass. */
  lemma LargePass(p: nat)
    requires p < 7
    ensures PassW(32768, p) in {4096, 8192, 16384, 32768} && PassH(32768, p) in {4096, 8192, 16384}
    ensures PassW(16384, p) in {2048, 4096, 8192, 16384} && PassH(16384, p) in {2048, 4096, 8192}
  {
    if p == 0 {} else if p == 1 {} else if p == 2 {} else if p == 3 {} else if p == 4 {} else if p == 5 {} else {}
  }
}
