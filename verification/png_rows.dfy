/**
 Undoing the filter of one row in place, with and without a byte of alpha behind
 every pixel, the first row without looking above it.
 */
module PngRows {
  import opened Basics
  import opened Bits
  import opened PngFilter

  /** The switch for a byte of the first pixel. */
  function FirstByte(kind: nat, x: byte, up: byte): byte {
    match kind
    case 0 => x
    case 1 => x
    case 2 => Add(x, up)
    case 3 => Add(x, Mean(0, up))
    case 4 => Add(x, Paeth(0, up, 0))
    case 5 => x
    case _ => x
  }

  /** The switch for a byte of a later pixel. */
  function LaterByte(kind: nat, x: byte, left: byte, up: byte, upLeft: byte): byte {
    match kind
    case 0 => x
    case 1 => Add(x, left)
    case 2 => Add(x, up)
    case 3 => Add(x, Mean(up, left))
    case 4 => Add(x, Paeth(left, up, upLeft))
    case 5 => Add(x, Mean(left, 0))
    case _ => Add(x, Paeth(left, 0, 0))
  }

  /** The switches look above only for filters 2 to 4. */
  function SeenUp(kind: nat, up: byte): byte {
    if kind in {2, 3, 4} then up else 0
  }

  function SeenUpLeft(kind: nat, upLeft: byte): byte {
    if kind == 4 then upLeft else 0
  }

  /** The filters for the first row are the general ones with zeros above. */
  lemma SyntheticFilters(t: nat, first: bool, x: byte, left: byte, up: byte, upLeft: byte)
    requires t <= 4 && (first ==> up == upLeft == 0)
    ensures var kind := if first then FirstMap(t) else t;
            && FirstByte(kind, x, SeenUp(kind, up)) == Add(x, Predict(t, 0, up, 0))
            && LaterByte(kind, x, left, SeenUp(kind, up), SeenUpLeft(kind, upLeft))
               == Add(x, Predict(t, left, up, upLeft))
  {
    assert Paeth(0, 0, 0) == 0;
    hide Paeth;
  }

  /** The next byte of a row from its neighbours. */
  lemma NextByte(t: nat, raw: seq<byte>, prior: seq<byte>, n: nat, k: nat)
    requires 1 <= n && k < |raw| == |prior|
    ensures var done := Unfiltered(t, raw, prior, n, k);
            Unfiltered(t, raw, prior, n, k + 1) ==
              done + [Add(raw[k], if k < n then Predict(t, 0, prior[k], 0)
                                  else Predict(t, done[k - n], prior[k], prior[k - n]))]
  {
    hide Predict, Add;
  }

  /** The row above stands `stride` bytes before `cur`, as `above`; a first row has zeros instead. */
  ghost predicate Above(out: seq<byte>, cur: nat, stride: nat, above: seq<byte>, first: bool) {
    && |above| == stride && cur <= |out|
    && if first then above == Fill(0, stride) else stride <= cur && out[cur - stride..cur] == above
  }

  lemma AboveAt(out: seq<byte>, cur: nat, stride: nat, above: seq<byte>, first: bool, k: nat)
    requires Above(out, cur, stride, above, first) && k < stride
    ensures if first then above[k] == 0 else stride <= cur && out[cur + k - stride] == above[k]
  {
    if !first { assert out[cur - stride..cur][k] == above[k]; }
  }

  lemma AboveKept(before: seq<byte>, after: seq<byte>, cur: nat, stride: nat, above: seq<byte>, first: bool)
    requires Above(before, cur, stride, above, first) && |after| == |before|
    requires forall k :: 0 <= k < cur ==> after[k] == before[k]
    ensures Above(after, cur, stride, above, first)
  {
    if !first { assert after[cur - stride..cur] == before[cur - stride..cur]; }
  }

  // ----- as many components as the file has

  /** One byte of the row at `cur`, the `k` bytes before it being done. */
  method FlatByte(raw: seq<byte>, r: nat, out: array<byte>, cur: nat, w: nat, n: nat, kind: nat, k: nat,
                  ghost t: nat, ghost prior: seq<byte>, ghost first: bool) returns (b: byte)
    requires k < w && 1 <= n && r + w <= |raw| && cur + w <= out.Length
    requires t <= 4 && kind == (if first then FirstMap(t) else t)
    requires Above(out[..], cur, w, prior, first)
    requires out[cur..cur + k] == Unfiltered(t, raw[r..r + w], prior, n, k)
    ensures out[cur..cur + k] + [b] == Unfiltered(t, raw[r..r + w], prior, n, k + 1)
  {
    hide FirstByte, LaterByte, Predict, Above, Unfiltered, Add;
    ghost var done := out[cur..cur + k];
    AboveAt(out[..], cur, w, prior, first, k);
    AboveLength(out[..], cur, w, prior, first);
    NextByte(t, raw[r..r + w], prior, n, k);
    assert raw[r..r + w][k] == raw[r + k];
    if k < n {
      SyntheticFilters(t, first, raw[r + k], 0, prior[k], 0);
      var up := if kind in {2, 3, 4} then out[cur + k - w] else 0;
      b := FirstByte(kind, raw[r + k], up);
    } else {
      AboveAt(out[..], cur, w, prior, first, k - n);
      assert done[k - n] == out[cur + k - n];
      SyntheticFilters(t, first, raw[r + k], done[k - n], prior[k], prior[k - n]);
      var up := if kind in {2, 3, 4} then out[cur + k - w] else 0;
      var upLeft := if kind == 4 then out[cur + k - n - w] else 0;
      b := LaterByte(kind, raw[r + k], out[cur + k - n], up, upLeft);
    }
  }

  lemma AboveLength(out: seq<byte>, cur: nat, stride: nat, above: seq<byte>, first: bool)
    requires Above(out, cur, stride, above, first)
    ensures |above| == stride
  {
  }

  /** The first `k` bytes of the row at `cur` are done, and nothing else has changed. */
  ghost predicate FlatDone(out: seq<byte>, before: seq<byte>, cur: nat, n: nat, t: nat, row: seq<byte>,
                           prior: seq<byte>, k: nat) {
    && k <= |row| && cur + |row| <= |before| == |out|
    && out == before[..cur] + Unfiltered(t, row, prior, n, k) + before[cur + k..]
  }

  /** The row at `cur` from the `w` bytes at `r`. */
  method FlatRow(raw: seq<byte>, r: nat, out: array<byte>, cur: nat, w: nat, n: nat, kind: nat,
                 ghost t: nat, ghost prior: seq<byte>, ghost first: bool)
    requires 1 <= n <= w && r + w <= |raw| && cur + w <= out.Length
    requires t <= 4 && kind == (if first then FirstMap(t) else t)
    requires Above(out[..], cur, w, prior, first)
    modifies out
    ensures out[..] == old(out[..])[..cur] + Unfiltered(t, raw[r..r + w], prior, n, w) + old(out[..])[cur + w..]
  {
    hide Unfiltered, Above, FirstMap, FlatDone;
    ghost var before, row := out[..], raw[r..r + w];
    FlatStart(before, cur, n, t, row, prior);
    for k := 0 to n
      invariant FlatDone(out[..], before, cur, n, t, row, prior, k)
    {
      FlatStep(raw, r, out, cur, w, n, kind, k, before, t, prior, first);
    }
    for k := n to w
      invariant FlatDone(out[..], before, cur, n, t, row, prior, k)
    {
      FlatStep(raw, r, out, cur, w, n, kind, k, before, t, prior, first);
    }
    FlatEnd(out[..], before, cur, n, t, row, prior);
  }

  lemma FlatStart(out: seq<byte>, cur: nat, n: nat, t: nat, row: seq<byte>, prior: seq<byte>)
    requires cur + |row| <= |out|
    ensures FlatDone(out, out, cur, n, t, row, prior, 0)
  {
    assert out[..cur] + [] + out[cur..] == out;
  }

  lemma FlatEnd(out: seq<byte>, before: seq<byte>, cur: nat, n: nat, t: nat, row: seq<byte>, prior: seq<byte>)
    requires FlatDone(out, before, cur, n, t, row, prior, |row|)
    ensures cur + |row| <= |before|
    ensures out == before[..cur] + Unfiltered(t, row, prior, n, |row|) + before[cur + |row|..]
  {
  }

  method FlatStep(raw: seq<byte>, r: nat, out: array<byte>, cur: nat, w: nat, n: nat, kind: nat, k: nat,
                  ghost before: seq<byte>, ghost t: nat, ghost prior: seq<byte>, ghost first: bool)
    requires k < w && 1 <= n && r + w <= |raw| && cur + w <= out.Length
    requires t <= 4 && kind == (if first then FirstMap(t) else t)
    requires Above(before, cur, w, prior, first)
    requires FlatDone(out[..], before, cur, n, t, raw[r..r + w], prior, k)
    modifies out
    ensures FlatDone(out[..], before, cur, n, t, raw[r..r + w], prior, k + 1)
  {
    hide Unfiltered, Above;
    ghost var done := Unfiltered(t, raw[r..r + w], prior, n, k);
    assert out[cur..cur + k] == done;
    AboveKept(before, out[..], cur, w, prior, first);
    var b := FlatByte(raw, r, out, cur, w, n, kind, k, t, prior, first);
    out[cur + k] := b;
    assert done + [b] == Unfiltered(t, raw[r..r + w], prior, n, k + 1);
  }

  // ----- with alpha

  /** The opaque alpha of a pixel: one byte, or two if samples have 16 bits. */
  function Opaque(q: nat): (r: seq<byte>)
    ensures |r| == q
  {
    Fill(255, q)
  }

  /** A row of `x` pixels of `n` bytes with `q` bytes of opaque alpha behind each. */
  function Spread(row: seq<byte>, n: nat, q: nat, x: nat): (r: seq<byte>)
    requires |row| == Times(x, n)
    ensures |r| == Times(x, n + q)
    decreases x
  {
    if x == 0 then []
    else
      MulNext(x - 1, n);
      MulNext(x - 1, n + q);
      Spread(row[..|row| - n], n, q, x - 1) + row[|row| - n..] + Opaque(q)
  }

  /** `a * b`, kept as a name where only its steps matter. */
  function Times(a: nat, b: nat): nat {
    a * b
  }

  lemma MulNext(x: nat, n: nat)
    ensures Times(x + 1, n) == Times(x, n) + n
  {
  }

  lemma {:induction false} MulAtMost(i: nat, x: nat, n: nat)
    requires i < x
    ensures Times(i, n) + n <= Times(x, n)
    decreases x
  {
    hide Times;
    MulNext(x - 1, n);
    if i < x - 1 { MulAtMost(i, x - 1, n); }
  }

  lemma NoTimes(n: nat)
    ensures Times(0, n) == 0
  {
  }

  /** The last pixel, and the pixels before it. */
  lemma SpreadSplit(row: seq<byte>, n: nat, q: nat, x: nat)
    requires |row| == Times(x, n) && x > 0
    ensures n <= |row| && |row| - n == Times(x - 1, n) && |Spread(row, n, q, x)| == Times(x - 1, n + q) + n + q
    ensures Spread(row, n, q, x) == Spread(row[..|row| - n], n, q, x - 1) + row[|row| - n..] + Opaque(q)
  {
    hide Times;
    MulNext(x - 1, n);
    MulNext(x - 1, n + q);
  }

  /** Pixel `i` and its alpha. */
  lemma {:induction false} SpreadPixel(row: seq<byte>, n: nat, q: nat, x: nat, i: nat)
    requires |row| == Times(x, n) && i < x
    ensures Times(i, n) + n <= |row| && Times(i, n + q) + n + q <= |Spread(row, n, q, x)|
    ensures Spread(row, n, q, x)[Times(i, n + q)..Times(i, n + q) + n + q] == row[Times(i, n)..Times(i, n) + n]
            + Opaque(q)
    decreases x
  {
    hide Times, Spread, Opaque;
    SpreadSplit(row, n, q, x);
    var front, last := Spread(row[..|row| - n], n, q, x - 1), row[|row| - n..];
    Associate(front, last, Opaque(q));
    if i < x - 1 {
      SpreadPixel(row[..|row| - n], n, q, x - 1, i);
      PixelInFront(front, last + Opaque(q), row, Times(i, n + q), Times(i, n), n, q);
    } else {
      LastPixel(front, last + Opaque(q));
      assert row[Times(i, n)..Times(i, n) + n] == last;
    }
  }

  lemma LastPixel(front: seq<byte>, rest: seq<byte>)
    ensures (front + rest)[|front|..|front| + |rest|] == rest
  {
  }

  lemma PixelInFront(front: seq<byte>, rest: seq<byte>, row: seq<byte>, a: nat, b: nat, n: nat, q: nat)
    requires a + n + q <= |front| && b + n <= |row| - n
    requires front[a..a + n + q] == row[..|row| - n][b..b + n] + Opaque(q)
    ensures (front + rest)[a..a + n + q] == row[b..b + n] + Opaque(q)
  {
    assert (front + rest)[a..a + n + q] == front[a..a + n + q];
    assert row[..|row| - n][b..b + n] == row[b..b + n];
  }

  /** Component `k` of pixel `i`. */
  lemma SpreadAt(row: seq<byte>, n: nat, q: nat, x: nat, i: nat, k: nat)
    requires |row| == Times(x, n) && i < x && k < n
    ensures Times(i, n) + k < |row| && Times(i, n + q) + k < |Spread(row, n, q, x)|
    ensures Spread(row, n, q, x)[Times(i, n + q) + k] == row[Times(i, n) + k]
  {
    hide Times, Spread;
    SpreadPixel(row, n, q, x, i);
    var a, b := Times(i, n + q), Times(i, n);
    assert Spread(row, n, q, x)[a..a + n + q][k] == row[b..b + n][k];
  }

  /** The row above, with alpha, stands before `cur`; above a first row everything is 0. */
  ghost predicate AboveAlpha(out: seq<byte>, cur: nat, x: nat, n: nat, q: nat, prior: seq<byte>, first: bool) {
    && |prior| == Times(x, n) && cur <= |out|
    && if first then prior == Fill(0, Times(x, n))
       else Times(x, n + q) <= cur && out[cur - Times(x, n + q)..cur] == Spread(prior, n, q, x)
  }

  lemma AboveAlphaAt(out: seq<byte>, cur: nat, x: nat, n: nat, q: nat, prior: seq<byte>, first: bool, i: nat, k: nat)
    requires AboveAlpha(out, cur, x, n, q, prior, first) && i < x && k < n
    ensures Times(i, n) + k < |prior|
    ensures if first then prior[Times(i, n) + k] == 0
            else Times(x, n + q) <= cur && Times(i, n + q) + k < Times(x, n + q)
                 && out[cur + Times(i, n + q) + k - Times(x, n + q)] == prior[Times(i, n) + k]
  {
    hide Times;
    MulAtMost(i, x, n);
    if !first {
      SpreadAt(prior, n, q, x, i, k);
      assert out[cur - Times(x, n + q)..cur][Times(i, n + q) + k] == prior[Times(i, n) + k];
    }
  }

  lemma AboveAlphaKept(before: seq<byte>, after: seq<byte>, cur: nat, x: nat, n: nat, q: nat, prior: seq<byte>,
                       first: bool)
    requires AboveAlpha(before, cur, x, n, q, prior, first) && |after| == |before| && after[..cur] == before[..cur]
    ensures AboveAlpha(after, cur, x, n, q, prior, first)
  {
    hide Times;
    if !first {
      assert after[cur - Times(x, n + q)..cur] == after[..cur][cur - Times(x, n + q)..];
      assert before[cur - Times(x, n + q)..cur] == before[..cur][cur - Times(x, n + q)..];
    }
  }

  /** A row to be undone: its filter and bytes, the row above, and where it goes in a buffer. */
  datatype Work = Work(
    before: seq<byte>,
    cur: nat,
    x: nat,
    n: nat,
    q: nat,
    t: nat,
    raw: seq<byte>,
    prior: seq<byte>,
    first: bool)

  /** The first `i` pixels of the row are done, and `k` bytes of the next. */
  ghost predicate PixelsDone(out: seq<byte>, a: Work, i: nat, k: nat, m: nat, c: nat) {
    && i <= a.x && |a.raw| == Times(a.x, a.n) && m == Times(i, a.n) && c == a.cur + Times(i, a.n + a.q)
    && m + k <= |a.raw| && a.cur <= c && c + k <= |a.before| == |out|
    && out == a.before[..a.cur] + Spread(Unfiltered(a.t, a.raw, a.prior, a.n, m), a.n, a.q, i)
              + Unfiltered(a.t, a.raw, a.prior, a.n, m + k)[m..] + a.before[c + k..]
  }

  /** Where the neighbours of the next byte stand. */
  lemma AlphaNeighbours(out: seq<byte>, a: Work, i: nat, k: nat, m: nat, c: nat)
    requires PixelsDone(out, a, i, k, m, c) && i < a.x && k < a.n
    requires AboveAlpha(a.before, a.cur, a.x, a.n, a.q, a.prior, a.first)
    ensures m + k < |a.raw| == |a.prior| && (i == 0 <==> m + k < a.n)
    ensures i > 0 ==> a.n + a.q <= c && out[c + k - (a.n + a.q)] == Unfiltered(a.t, a.raw, a.prior, a.n,
            m + k)[m + k - a.n]
    ensures if a.first then a.prior[m + k] == 0 && (i > 0 ==> a.prior[m + k - a.n] == 0)
            else Times(a.x, a.n + a.q) <= a.cur && out[c + k - Times(a.x, a.n + a.q)] == a.prior[m + k]
                 && (i > 0 ==>
                       Times(a.x, a.n + a.q) + a.n + a.q <= c
                       && out[c + k - (a.n + a.q) - Times(a.x, a.n + a.q)] == a.prior[m + k - a.n])
  {
    var Work(before, cur, x, n, q, t, raw, prior, first) := a;
    hide Times, AboveAlpha, Unfiltered, Spread, Fill;
    DoneFacts(out, a, i, k, m, c);
    hide PixelsDone;
    AboveAlphaKept(before, out, cur, x, n, q, prior, first);
    AboveAlphaAt(out, cur, x, n, q, prior, first, i, k);
    AboveAlphaLength(out, cur, x, n, q, prior, first);
    if i > 0 {
      LeftNeighbour(out, a, i, k, m, c);
      MulNext(i - 1, n);
      MulNext(i - 1, n + q);
      AboveAlphaAt(out, cur, x, n, q, prior, first, i - 1, k);
    }
  }

  lemma DoneFacts(out: seq<byte>, a: Work, i: nat, k: nat, m: nat, c: nat)
    requires PixelsDone(out, a, i, k, m, c) && i < a.x && k < a.n
    ensures |a.raw| == Times(a.x, a.n) && m == Times(i, a.n) && c == a.cur + Times(i, a.n + a.q)
    ensures a.cur <= c && c + k <= |a.before| == |out|
    ensures m + k < |a.raw| && (i == 0 <==> m + k < a.n) && out[..a.cur] == a.before[..a.cur]
  {
    var Work(before, cur, x, n, q, t, raw, prior, first) := a;
    hide Times, Unfiltered, Spread;
    MulAtMost(i, x, n);
    NoTimes(n);
    if i > 0 { MulNext(i - 1, n); }
  }

  lemma LeftNeighbour(out: seq<byte>, a: Work, i: nat, k: nat, m: nat, c: nat)
    requires PixelsDone(out, a, i, k, m, c) && 0 < i && k < a.n
    ensures a.n <= m && a.n + a.q <= c && c + k <= |out|
    ensures out[c + k - (a.n + a.q)] == Unfiltered(a.t, a.raw, a.prior, a.n, m + k)[m + k - a.n]
  {
    var Work(before, cur, x, n, q, t, raw, prior, first) := a;
    hide Times, Unfiltered;
    MulNext(i - 1, n);
    MulNext(i - 1, n + q);
    var done := Unfiltered(t, raw, prior, n, m);
    UnfilteredPrefix(t, raw, prior, n, m + k, m);
    var spread := Spread(done, n, q, i);
    SpreadLast(done, n, q, i, m, k);
    hide Spread;
    var all := Unfiltered(t, raw, prior, n, m + k);
    InMiddle(before[..cur], spread, all[m..], before[c + k..], |spread| - (n + q) + k);
    assert out[c + k - (n + q)] == spread[|spread| - (n + q) + k];
    hide PixelsDone;
    assert all[..m][m + k - n] == done[m + k - n];
  }

  lemma InMiddle(a: seq<byte>, s: seq<byte>, r: seq<byte>, b: seq<byte>, i: nat)
    requires i < |s|
    ensures (a + s + r + b)[|a| + i] == s[i]
  {
  }

  /** The last pixel of a row with alpha. */
  lemma SpreadLast(row: seq<byte>, n: nat, q: nat, x: nat, m: nat, k: nat)
    requires m == Times(x, n) == |row| && x > 0 && k < n
    ensures n <= m && n + q <= |Spread(row, n, q, x)|
    ensures Spread(row, n, q, x)[|Spread(row, n, q, x)| - (n + q) + k] == row[m - n + k]
  {
    hide Times;
    MulNext(x - 1, n);
    MulNext(x - 1, n + q);
  }

  lemma AboveAlphaLength(out: seq<byte>, cur: nat, x: nat, n: nat, q: nat, prior: seq<byte>, first: bool)
    requires AboveAlpha(out, cur, x, n, q, prior, first)
    ensures |prior| == Times(x, n)
  {
  }

  lemma StoreByte(out: seq<byte>, a: Work, i: nat, k: nat, m: nat, c: nat, b: byte)
    requires PixelsDone(out, a, i, k, m, c) && m + k < |a.raw| && c + k < |a.before|
    requires Unfiltered(a.t, a.raw, a.prior, a.n, m + k + 1) == Unfiltered(a.t, a.raw, a.prior, a.n, m + k) + [b]
    ensures PixelsDone(out[c + k := b], a, i, k + 1, m, c)
  {
    var Work(before, cur, x, n, q, t, raw, prior, first) := a;
    hide Times, Unfiltered, Spread;
    assert Unfiltered(t, raw, prior, n, m + k + 1)[m..] == Unfiltered(t, raw, prior, n, m + k)[m..] + [b];
  }

  /** `t` written into `s` from `at` on. */
  function Put(s: seq<byte>, at: nat, t: seq<byte>): (r: seq<byte>)
    requires at + |t| <= |s|
    ensures |r| == |s|
    ensures forall k :: 0 <= k < |s| ==> r[k] == if at <= k < at + |t| then t[k - at] else s[k]
  {
    s[..at] + t + s[at + |t|..]
  }

  lemma StoreAlpha(out: seq<byte>, a: Work, i: nat, m: nat, c: nat)
    requires PixelsDone(out, a, i, a.n, m, c) && i < a.x && c + a.n + a.q <= |a.before|
    ensures PixelsDone(Put(out, c + a.n, Opaque(a.q)), a, i + 1, 0, m + a.n, c + a.n + a.q)
  {
    var Work(before, cur, x, n, q, t, raw, prior, first) := a;
    hide Times, Opaque, Unfiltered, Spread, Put;
    var pixel := Unfiltered(t, raw, prior, n, m + n)[m..];
    var spread := Spread(Unfiltered(t, raw, prior, n, m), n, q, i);
    assert |before[..cur]| + |spread| + |pixel| == c + n;
    AlphaStored(before[..cur], spread, pixel, before[c + n..], Opaque(q));
    assert before[c + n..][q..] == before[c + n + q..];
    PixelAdded(Put(out, c + n, Opaque(q)), a, i, m, c);
  }

  lemma PixelAdded(out: seq<byte>, a: Work, i: nat, m: nat, c: nat)
    requires i < a.x && |a.raw| == Times(a.x, a.n) && m == Times(i, a.n) && c == a.cur + Times(i, a.n + a.q)
    requires m + a.n <= |a.raw| && c + a.n + a.q <= |a.before| == |out|
    requires var spread := Spread(Unfiltered(a.t, a.raw, a.prior, a.n, m), a.n, a.q, i);
             out == a.before[..a.cur]
                    + (spread + Unfiltered(a.t, a.raw, a.prior, a.n, m + a.n)[m..] + Opaque(a.q)) + []
                    + a.before[c + a.n + a.q..]
    ensures PixelsDone(out, a, i + 1, 0, m + a.n, c + a.n + a.q)
  {
    var Work(before, cur, x, n, q, t, raw, prior, first) := a;
    hide Times, Opaque;
    MulNext(i, n);
    MulNext(i, n + q);
    var done := Unfiltered(t, raw, prior, n, m + n);
    UnfilteredPrefix(t, raw, prior, n, m + n, m);
    SpreadNext(done, n, q, i, m);
    hide Unfiltered, Spread;
    assert done[m + n..] == [];
  }

  lemma AlphaStored(before: seq<byte>, spread: seq<byte>, pixel: seq<byte>, behind: seq<byte>, alpha: seq<byte>)
    requires |alpha| <= |behind|
    ensures Put(before + spread + pixel + behind, |before| + |spread| + |pixel|, alpha)
         == before + (spread + pixel + alpha) + [] + behind[|alpha|..]
  {
  }

  lemma SpreadNext(row: seq<byte>, n: nat, q: nat, i: nat, m: nat)
    requires m == Times(i, n) && |row| == m + n
    ensures |row| == Times(i + 1, n) && Spread(row, n, q, i + 1) == Spread(row[..m], n, q, i) + row[m..] + Opaque(q)
  {
    hide Times;
    MulNext(i, n);
    MulNext(i, n + q);
  }

  lemma NoPixels(a: Work)
    requires |a.raw| == Times(a.x, a.n) && a.cur <= |a.before|
    ensures PixelsDone(a.before, a, 0, 0, 0, a.cur)
  {
    var Work(before, cur, x, n, q, t, raw, prior, first) := a;
    hide Times;
    NoTimes(n);
    NoTimes(n + q);
    assert before[..cur] + [] + [] + before[cur..] == before;
  }

  lemma AllPixels(out: seq<byte>, a: Work, m: nat, c: nat)
    requires PixelsDone(out, a, a.x, 0, m, c)
    ensures a.cur + Times(a.x, a.n + a.q) <= |a.before|
    ensures out == a.before[..a.cur] + Spread(Unfiltered(a.t, a.raw, a.prior, a.n, Times(a.x, a.n)), a.n, a.q, a.x)
                   + a.before[a.cur + Times(a.x, a.n + a.q)..]
  {
    var Work(before, cur, x, n, q, t, raw, prior, first) := a;
    hide Times, Spread;
    assert Unfiltered(t, raw, prior, n, m)[m..] == [];
  }

  // ----- the lower bytes of 16-bit alpha, which are written last

  /** The lower byte of the alpha of a pixel from `j` on. */
  predicate IsLow(a: Work, at: int, j: nat) {
    a.q == 2 && exists i: nat :: j <= i < a.x && at == LowPlace(a, i)
  }

  function LowPlace(a: Work, i: nat): nat {
    a.cur + Times(i, a.n + a.q) + a.n + 1
  }

  /** The buffer is `done` but for the lower bytes from pixel `j` on. */
  ghost predicate Near(out: seq<byte>, done: seq<byte>, a: Work, j: nat) {
    |out| == |done| && forall k :: 0 <= k < |out| ==> out[k] == done[k] || IsLow(a, k, j)
  }

  /** Components, the upper byte of alpha, and everything before the row are no lower bytes. */
  lemma NotLow(a: Work, i: nat, k: nat, at: int)
    requires (i < a.x && k <= a.n && at == a.cur + Times(i, a.n + a.q) + k) || at < a.cur
    ensures !IsLow(a, at, 0)
  {
    if j: nat :| a.q == 2 && j < a.x && at == LowPlace(a, j) {
      hide Times;
      if j < i { MulAtMost(j, i, a.n + a.q); }
      if i < j { MulAtMost(i, j, a.n + a.q); }
      assert false;
    }
  }

  lemma NearSame(out: seq<byte>, done: seq<byte>, a: Work, i: nat, k: nat, at: int)
    requires Near(out, done, a, 0) && 0 <= at < |out|
    requires (i < a.x && k <= a.n && at == a.cur + Times(i, a.n + a.q) + k) || at < a.cur
    ensures out[at] == done[at]
  {
    hide Times;
    NotLow(a, i, k, at);
  }

  /** The work is that of a row whose bytes stand at `r` in `data`. */
  ghost predicate WorkOk(a: Work, data: seq<byte>, r: int, stride: nat, n: nat, q: nat, kind: nat) {
    && a.n == n && a.q == q && 1 <= q <= 2 && stride == Times(a.x, n + q) && 0 <= r && r + Times(a.x, n) <= |data|
    && a.raw == data[r..r + Times(a.x, n)]
    && a.t <= 4 && kind == (if a.first then FirstMap(a.t) else a.t)
    && AboveAlpha(a.before, a.cur, a.x, n, q, a.prior, a.first) && a.cur + stride <= |a.before|
  }

  /** Byte `k` of pixel `i`; the bytes of the pixel start at `rp` and go to `c`. */
  method AlphaByte(data: seq<byte>, rp: nat, out: array<byte>, c: nat, stride: nat, n: nat, q: nat, kind: nat, k: nat,
                   firstPixel: bool, ghost a: Work, ghost i: nat, ghost m: nat, ghost done: seq<byte>)
    returns (ghost next: seq<byte>)
    requires WorkOk(a, data, rp - m, stride, n, q, kind) && rp >= m && i < a.x && k < n && (firstPixel <==> i == 0)
    requires PixelsDone(done, a, i, k, m, c) && Near(out[..], done, a, 0)
    modifies out
    ensures PixelsDone(next, a, i, k + 1, m, c) && Near(out[..], next, a, 0)
  {
    ghost var Work(before, cur, x, _, _, t, row, prior, first) := a;
    hide Times, FirstByte, LaterByte, Predict, AboveAlpha, Unfiltered, Add, Spread;
    AlphaNeighbours(done, a, i, k, m, c);
    NextByte(t, row, prior, n, m + k);
    MulAtMost(i, x, n + q);
    assert c + k < |before| && data[rp + k] == row[m + k];
    NeighboursSame(out[..], done, a, i, k, m, c);
    hide PixelsDone, Near;
    ghost var left := if i == 0 then 0 else Unfiltered(t, row, prior, n, m + k)[m + k - n];
    SyntheticFilters(t, first, data[rp + k], left, prior[m + k], if i == 0 then 0 else prior[m + k - n]);
    var up := if kind in {2, 3, 4} then out[c + k - stride] else 0;
    var b;
    if firstPixel {
      b := FirstByte(kind, data[rp + k], up);
    } else {
      b := LaterByte(kind, data[rp + k], out[c + k - (n + q)], up,
                     if kind == 4 then out[c + k - (n + q) - stride] else 0);
    }
    StoreByte(done, a, i, k, m, c, b);
    next := done[c + k := b];
    NearStore(out[..], done, a, c + k, b);
    out[c + k] := b;
  }

  /** The neighbours that the filters look at stand in the buffer. */
  lemma NeighboursSame(out: seq<byte>, done: seq<byte>, a: Work, i: nat, k: nat, m: nat, c: nat)
    requires PixelsDone(done, a, i, k, m, c) && Near(out, done, a, 0) && i < a.x && k < a.n
    requires a.cur + Times(a.x, a.n + a.q) <= |a.before|
    requires i > 0 ==> a.n + a.q <= c
    requires !a.first ==> Times(a.x, a.n + a.q) <= a.cur && (i > 0 ==> Times(a.x, a.n + a.q) + a.n + a.q <= c)
    ensures c + k < |out|
    ensures i > 0 ==> out[c + k - (a.n + a.q)] == done[c + k - (a.n + a.q)]
    ensures !a.first ==> var at := c + k - Times(a.x, a.n + a.q);
                         out[at] == done[at] && (i > 0 ==> out[at - (a.n + a.q)] == done[at - (a.n + a.q)])
  {
    var s := a.n + a.q;
    var stride := Times(a.x, s);
    assert c == a.cur + Times(i, s) && |done| == |a.before|;
    hide Times, PixelsDone, Near;
    MulAtMost(i, a.x, s);
    assert |out| == |done| by { NearLength(out, done, a); }
    if i > 0 {
      MulNext(i - 1, s);
      NearSame(out, done, a, i - 1, k, c + k - s);
    }
    if !a.first {
      NearSame(out, done, a, i, k, c + k - stride);
      if i > 0 { NearSame(out, done, a, i, k, c + k - stride - s); }
    }
  }

  lemma NearLength(out: seq<byte>, done: seq<byte>, a: Work)
    requires Near(out, done, a, 0)
    ensures |out| == |done|
  {
  }

  lemma NearStore(out: seq<byte>, done: seq<byte>, a: Work, at: nat, b: byte)
    requires Near(out, done, a, 0) && at < |out|
    ensures at < |done| && Near(out[at := b], done[at := b], a, 0)
  {
  }

  /** One pixel and its alpha, of which two bytes are written only for the first pixel. */
  method AlphaPixel(data: seq<byte>, rp: nat, out: array<byte>, c: nat, stride: nat, n: nat, q: nat, kind: nat,
                    firstPixel: bool, ghost a: Work, ghost i: nat, ghost m: nat, ghost done: seq<byte>)
    returns (ghost next: seq<byte>)
    requires WorkOk(a, data, rp - m, stride, n, q, kind) && rp >= m && i < a.x && (firstPixel <==> i == 0)
    requires PixelsDone(done, a, i, 0, m, c) && Near(out[..], done, a, 0)
    modifies out
    ensures PixelsDone(next, a, i + 1, 0, m + n, c + n + q) && Near(out[..], next, a, 0)
  {
    hide Times, AboveAlpha, Opaque, Put, Unfiltered, Spread;
    MulAtMost(i, a.x, n + q);
    assert c + n + q <= |a.before| == out.Length && c == a.cur + Times(i, n + q);
    hide PixelsDone, Near;
    next := done;
    for k := 0 to n
      invariant PixelsDone(next, a, i, k, m, c) && Near(out[..], next, a, 0)
    {
      next := AlphaByte(data, rp, out, c, stride, n, q, kind, k, firstPixel, a, i, m, next);
    }
    next := AlphaEnd(out, c, n, q, firstPixel, a, i, m, next);
  }

  method AlphaEnd(out: array<byte>, c: nat, n: nat, q: nat, firstPixel: bool, ghost a: Work, ghost i: nat, ghost m: nat,
                  ghost done: seq<byte>) returns (ghost next: seq<byte>)
    requires i < a.x && a.n == n && a.q == q && 1 <= q <= 2 && c == a.cur + Times(i, n + q)
    requires c + n + q <= |a.before| == out.Length
    requires PixelsDone(done, a, i, n, m, c) && Near(out[..], done, a, 0)
    modifies out
    ensures PixelsDone(next, a, i + 1, 0, m + n, c + n + q) && Near(out[..], next, a, 0)
  {
    hide Times, Opaque, Put, PixelsDone, Near;
    NearLength(out[..], done, a);
    StoreAlpha(done, a, i, m, c);
    NearAlpha(out[..], done, a, i, c, firstPixel && q == 2);
    next := Put(done, c + n, Opaque(q));
    ghost var top := out[..][c + n := 255];
    out[c + n] := 255;
    assert out[..] == top;
    if firstPixel && q == 2 {
      out[c + n + 1] := 255;
      assert out[..] == top[c + n + 1 := 255];
    }
  }

  lemma NearAlpha(out: seq<byte>, done: seq<byte>, a: Work, i: nat, c: nat, both: bool)
    requires Near(out, done, a, 0) && i < a.x && c == a.cur + Times(i, a.n + a.q) && c + a.n + a.q <= |done|
    requires 1 <= a.q <= 2 && (both ==> a.q == 2)
    ensures var top := out[c + a.n := 255];
            Near(if both then top[c + a.n + 1 := 255] else top, Put(done, c + a.n, Opaque(a.q)), a, 0)
  {
    hide Times;
    if a.q == 2 { assert c + a.n + 1 == LowPlace(a, i); }
  }

  /** The lower bytes of alpha, in a pass of their own over the row. */
  method LowerBytes(out: array<byte>, cur: nat, x: nat, n: nat, ghost a: Work, ghost done: seq<byte>)
    requires a.cur == cur && a.x == x && a.n == n && a.q == 2 && cur + Times(x, n + 2) <= out.Length
    requires Near(out[..], done, a, 0)
    requires forall i :: 0 <= i < x ==> LowPlace(a, i) < |done| && done[LowPlace(a, i)] == 255
    modifies out
    ensures out[..] == done
  {
    hide Times;
    var c := cur;
    NoTimes(n + 2);
    for i := 0 to x
      invariant c == cur + Times(i, n + 2) && Near(out[..], done, a, i)
    {
      MulAtMost(i, x, n + 2);
      MulNext(i, n + 2);
      assert c + n + 1 == LowPlace(a, i);
      ghost var before := out[..];
      out[c + n + 1] := 255;
      assert out[..] == before[c + n + 1 := 255];
      c := c + n + 2;
    }
  }

  /** The row at `cur` from the `Times(x, n)` bytes at `r`, with `q` bytes of alpha. */
  method AlphaRow(raw: seq<byte>, r: nat, out: array<byte>, cur: nat, x: nat, n: nat, q: nat, kind: nat,
                  ghost t: nat, ghost prior: seq<byte>, ghost first: bool)
    requires 1 <= x && 1 <= q <= 2 && r + Times(x, n) <= |raw| && cur + Times(x, n + q) <= out.Length
    requires t <= 4 && kind == (if first then FirstMap(t) else t)
    requires AboveAlpha(out[..], cur, x, n, q, prior, first)
    modifies out
    ensures out[..] == old(out[..cur]) + Spread(Unfiltered(t, raw[r..r + Times(x, n)], prior, n, Times(x, n)), n, q, x)
                       + old(out[cur + Times(x, n + q)..])
  {
    hide Times, AboveAlpha, PixelsDone, Spread, Unfiltered, Near;
    var stride := Times(x, n + q);
    ghost var m: nat := 0;
    ghost var a := Work(out[..], cur, x, n, q, t, raw[r..r + Times(x, n)], prior, first);
    NoPixels(a);
    NearSelf(out[..], a);
    var rp: nat, c: nat := r, cur;
    ghost var done := AlphaPixel(raw, rp, out, c, stride, n, q, kind, true, a, 0, m, out[..]);
    rp, c, m := rp + n, c + n + q, m + n;
    for i := 1 to x
      invariant rp == r + m && PixelsDone(done, a, i, 0, m, c) && Near(out[..], done, a, 0)
    {
      done := AlphaPixel(raw, rp, out, c, stride, n, q, kind, false, a, i, m, done);
      rp, c, m := rp + n, c + n + q, m + n;
    }
    AllPixels(done, a, m, c);
    if q == 2 {
      LowerDone(done, a);
      LowerBytes(out, cur, x, n, a, done);
    } else {
      NearEqual(out[..], done, a);
    }
  }

  lemma NearSelf(out: seq<byte>, a: Work)
    ensures Near(out, out, a, 0)
  {
  }

  lemma NearEqual(out: seq<byte>, done: seq<byte>, a: Work)
    requires Near(out, done, a, 0) && a.q != 2
    ensures out == done
  {
  }

  lemma LowerDone(done: seq<byte>, a: Work)
    requires a.q == 2 && |a.raw| == Times(a.x, a.n) && a.cur + Times(a.x, a.n + a.q) <= |a.before|
    requires done == a.before[..a.cur] + Spread(Unfiltered(a.t, a.raw, a.prior, a.n, Times(a.x, a.n)), a.n, a.q, a.x)
                     + a.before[a.cur + Times(a.x, a.n + a.q)..]
    ensures forall i :: 0 <= i < a.x ==> LowPlace(a, i) < |done| && done[LowPlace(a, i)] == 255
  {
    hide Times, Spread, Unfiltered;
    var row := Unfiltered(a.t, a.raw, a.prior, a.n, Times(a.x, a.n));
    var spread := Spread(row, a.n, a.q, a.x);
    forall i | 0 <= i < a.x ensures LowPlace(a, i) < |done| && done[LowPlace(a, i)] == 255 {
      SpreadPixel(row, a.n, a.q, a.x, i);
      var b, c := Times(i, a.n + a.q), Times(i, a.n);
      assert spread[b..b + a.n + a.q][a.n + 1] == (row[c..c + a.n] + Opaque(2))[a.n + 1] == 255;
      assert spread[b + a.n + 1] == 255;
    }
  }
}
