/** Images as sequences of rows, and the same rows one after the other in a buffer. */
module Raster {
  import opened Basics

  /** `a * b * c + add` can be computed in an `int`. */
  predicate SizesValid(a: nat, b: nat, c: nat, add: nat) {
    a * b <= INT_MAX && a * b * c <= INT_MAX && a * b * c + add <= INT_MAX
  }

  function Concat<T>(rows: seq<seq<T>>): seq<T> {
    if rows == [] then [] else rows[0] + Concat(rows[1..])
  }

  predicate Wide<T>(rows: seq<seq<T>>, w: nat) {
    forall j :: 0 <= j < |rows| ==> |rows[j]| == w
  }

  function Reversed<T>(s: seq<T>): (r: seq<T>)
    ensures |r| == |s| && forall i :: 0 <= i < |s| ==> r[i] == s[|s| - 1 - i]
  {
    seq(|s|, i requires 0 <= i < |s| => s[|s| - 1 - i])
  }

  /** The `h` rows of `w` elements that a buffer holds. */
  function Split<T>(s: seq<T>, w: nat, h: nat): (rows: seq<seq<T>>)
    requires |s| == w * h
    ensures |rows| == h && Wide(rows, w) && Concat(rows) == s
    decreases h
  {
    if h == 0 then []
    else
      assert w * h == w + w * (h - 1);
      [s[..w]] + Split(s[w..], w, h - 1)
  }

  lemma {:induction false} ConcatLength<T>(rows: seq<seq<T>>, w: nat)
    requires Wide(rows, w)
    ensures |Concat(rows)| == w * |rows|
  {
    if rows != [] {
      ConcatLength(rows[1..], w);
      assert w * |rows| == w + w * |rows[1..]|;
    }
  }

  lemma {:induction false} ConcatAppend<T>(a: seq<seq<T>>, b: seq<seq<T>>)
    ensures Concat(a + b) == Concat(a) + Concat(b)
  {
    if a == [] {
      assert a + b == b;
    } else {
      assert (a + b)[1..] == a[1..] + b;
      ConcatAppend(a[1..], b);
    }
  }

  lemma ConcatOne<T>(row: seq<T>)
    ensures Concat([row]) == row
  {
    assert [row][1..] == [];
  }

  lemma ConcatSnoc<T>(a: seq<seq<T>>, row: seq<T>)
    ensures Concat(a + [row]) == Concat(a) + row
  {
    ConcatAppend(a, [row]);
    ConcatOne(row);
  }

  /** A buffer determines its rows. */
  lemma {:induction false} SplitConcat<T>(rows: seq<seq<T>>, w: nat)
    requires Wide(rows, w)
    ensures |Concat(rows)| == w * |rows| && Split(Concat(rows), w, |rows|) == rows
  {
    ConcatLength(rows, w);
    if rows != [] {
      SplitConcat(rows[1..], w);
      var s := Concat(rows);
      assert s[..w] == rows[0] && s[w..] == Concat(rows[1..]);
    }
  }

  lemma ConcatThree<T>(a: seq<seq<T>>, row: seq<T>, b: seq<seq<T>>)
    ensures Concat(a + [row] + b) == Concat(a) + row + Concat(b)
  {
    ConcatAppend(a + [row], b);
    ConcatSnoc(a, row);
  }

  /** Row `j` stands at `a`, which is `w * j`; replacing it there replaces it in the image. */
  lemma UpdateAt<T>(rows: seq<seq<T>>, w: nat, j: nat, row: seq<T>, a: nat)
    requires Wide(rows, w) && j < |rows| && |row| == w && a == w * j
    ensures a + w <= |Concat(rows)| && Concat(rows)[a..a + w] == rows[j]
    ensures Concat(rows[j := row]) == Concat(rows)[..a] + row + Concat(rows)[a + w..]
  {
    var before, behind := rows[..j], rows[j + 1..];
    assert rows == before + [rows[j]] + behind && rows[j := row] == before + [row] + behind;
    PlaceOf(rows, w, j, a);
    assert |rows[j]| == w;
    hide Concat, Wide;
    ConcatThree(before, rows[j], behind);
    ConcatThree(before, row, behind);
    Middle(Concat(before), rows[j], Concat(behind));
  }

  lemma PlaceOf<T>(rows: seq<seq<T>>, w: nat, j: nat, a: nat)
    requires Wide(rows, w) && j < |rows| && a == w * j
    ensures |Concat(rows[..j])| == a
  {
    hide Concat;
    ConcatLength(rows[..j], w);
  }

  lemma Middle<T>(a: seq<T>, m: seq<T>, b: seq<T>)
    ensures var s := a + m + b; s[..|a|] == a && s[|a|..|a| + |m|] == m && s[|a| + |m|..] == b
  {
  }

  // ----- turning an image upside down in place

  /** `s` with the `w` elements at `a` and those at `b` exchanged. */
  function Exchanged<T>(s: seq<T>, a: nat, b: nat, w: nat): (r: seq<T>)
    requires b + w <= |s| && (a == b || a + w <= b)
    ensures |r| == |s|
  {
    if a == b then s else s[..a] + s[b..b + w] + s[a + w..b] + s[a..a + w] + s[b + w..]
  }

  /** Exchanges two rows; they may be the same. */
  method Exchange<T>(data: array<T>, a: nat, b: nat, w: nat)
    requires b + w <= data.Length && (a == b || a + w <= b)
    modifies data
    ensures data[..] == Exchanged(old(data[..]), a, b, w)
  {
    hide Exchanged;
    ExchangeNone(data[..], a, b);
    var index1, index2 := a, b;
    var i: nat := w;
    while i > 0
      invariant i <= w && index1 == a + w - i && index2 == b + w - i
      invariant data[..] == Exchanged(old(data[..]), a, b, w - i)
    {
      ExchangeOneMore(old(data[..]), a, b, w - i);
      var temp := data[index1];
      data[index1] := data[index2];
      data[index2] := temp;
      index1 := index1 + 1;
      index2 := index2 + 1;
      i := i - 1;
    }
  }

  lemma ExchangeNone<T>(s: seq<T>, a: nat, b: nat)
    requires b <= |s| && a <= b
    ensures Exchanged(s, a, b, 0) == s
  {
  }

  lemma ExchangeSame<T>(s: seq<T>, a: nat, w: nat)
    requires a + w <= |s|
    ensures Exchanged(s, a, a, w) == s
  {
  }

  lemma ExchangedAt<T>(s: seq<T>, a: nat, b: nat, w: nat)
    requires a + w <= b && b + w <= |s|
    ensures forall k {:trigger Exchanged(s, a, b, w)[k]} :: 0 <= k < |s| ==>
              Exchanged(s, a, b, w)[k]
              == if a <= k < a + w then s[k + b - a] else if b <= k < b + w then s[k - b + a] else s[k]
  {
  }

  lemma ExchangeOneMore<T>(s: seq<T>, a: nat, b: nat, w: nat)
    requires b + w < |s| && (a == b || a + w < b)
    ensures var r := Exchanged(s, a, b, w);
            r[a + w] == s[a + w] && r[b + w] == s[b + w]
            && Exchanged(s, a, b, w + 1) == r[a + w := s[b + w]][b + w := s[a + w]]
  {
    var r := Exchanged(s, a, b, w);
    if a < b {
      var t := Exchanged(s, a, b, w + 1);
      ExchangedAt(s, a, b, w);
      ExchangedAt(s, a, b, w + 1);
      hide Exchanged;
      assert forall k :: 0 <= k < |s| ==> t[k] == r[a + w := s[b + w]][b + w := s[a + w]][k];
    }
  }

  lemma RowsExchanged<T>(rows: seq<seq<T>>, w: nat, j: nat, l: nat)
    requires Wide(rows, w) && j <= l < |rows|
    ensures w * l + w <= |Concat(rows)| && (j == l || w * j + w <= w * l)
    ensures Exchanged(Concat(rows), w * j, w * l, w) == Concat(rows[j := rows[l]][l := rows[j]])
    ensures Wide(rows[j := rows[l]][l := rows[j]], w)
  {
    assert Wide(rows[j := rows[l]][l := rows[j]], w);
    hide Concat, Exchanged, Wide;
    if j < l { LaterRow(w, j, l); }
    RowsExchangedAt(rows, w, j, l, w * j, w * l);
  }

  /** The same with the places of the rows. */
  lemma RowsExchangedAt<T>(rows: seq<seq<T>>, w: nat, j: nat, l: nat, a: nat, b: nat)
    requires Wide(rows, w) && j <= l < |rows| && a == w * j && b == w * l && (j == l || a + w <= b)
    ensures b + w <= |Concat(rows)|
    ensures Exchanged(Concat(rows), a, b, w) == Concat(rows[j := rows[l]][l := rows[j]])
  {
    var r1 := rows[j := rows[l]];
    assert |rows[j]| == w && |rows[l]| == w && Wide(r1, w);
    hide Concat, Exchanged, Wide;
    UpdateAt(rows, w, l, rows[l], b);
    if j < l {
      UpdateAt(rows, w, j, rows[l], a);
      UpdateAt(r1, w, l, rows[j], b);
      UpdateTwice(Concat(rows), a, b, w);
    } else {
      assert r1[l := rows[j]] == rows;
      ExchangeSame(Concat(rows), a, w);
    }
  }

  lemma {:induction false} LaterRow(w: nat, j: nat, l: nat)
    requires j < l
    ensures w * j + w <= w * l
    decreases l
  {
    MulStep(w, l);
    if j < l - 1 { LaterRow(w, j, l - 1); }
  }

  lemma MulStep(w: nat, l: nat)
    requires l > 0
    ensures w * l == w * (l - 1) + w
  {
  }

  lemma UpdateTwice<T>(s: seq<T>, a: nat, b: nat, w: nat)
    requires a + w <= b && b + w <= |s|
    ensures var u := s[..a] + s[b..b + w] + s[a + w..];
            Exchanged(s, a, b, w) == u[..b] + s[a..a + w] + u[b + w..]
  {
    var u := s[..a] + s[b..b + w] + s[a + w..];
    assert u[..b] == s[..a] + s[b..b + w] + s[a + w..b];
    assert u[b + w..] == s[b + w..];
  }

  /** The outer `j` rows on both sides are where they belong. */
  predicate PartlyReversed<T(==)>(rows: seq<T>, rows0: seq<T>, j: nat) {
    && |rows| == |rows0|
    && (forall k :: 0 <= k < |rows| && (k < j || k > |rows| - 1 - j) ==> rows[k] == rows0[|rows| - 1 - k])
    && (forall k :: j <= k <= |rows| - 1 - j ==> rows[k] == rows0[k])
  }

  lemma NoneReversed<T>(rows: seq<T>)
    ensures PartlyReversed(rows, rows, 0)
  {
  }

  lemma ReverseOneMore<T>(rows: seq<T>, rows0: seq<T>, j: nat)
    requires PartlyReversed(rows, rows0, j) && 2 * j < |rows|
    ensures PartlyReversed(rows[j := rows[|rows| - 1 - j]][|rows| - 1 - j := rows[j]], rows0, j + 1)
  {
    assert rows[j] == rows0[j] && rows[|rows| - 1 - j] == rows0[|rows| - 1 - j];
  }

  lemma AllReversed<T>(rows: seq<T>, rows0: seq<T>, j: nat)
    requires PartlyReversed(rows, rows0, j) && 2 * j >= |rows|
    ensures rows == Reversed(rows0)
  {
  }

  /** Row `j` is exchanged with row `h - 1 - j` for the upper half of them. */
  method FlipInPlace<T>(data: array<T>, w: nat, h: nat)
    requires data.Length == w * h
    modifies data
    ensures data[..] == Concat(Reversed(Split(old(data[..]), w, h)))
  {
    hide Concat, Wide, Split, Exchanged, Reversed, PartlyReversed;
    ghost var rows0 := Split(data[..], w, h);
    ghost var rows := rows0;
    assert PartlyReversed(rows, rows0, 0) by { NoneReversed(rows); }
    var j: nat := 0;
    while j * 2 < h
      invariant |rows| == h && Wide(rows, w) && data[..] == Concat(rows)
      invariant 2 * j <= h + 1
      invariant PartlyReversed(rows, rows0, j)
    {
      ghost var l := h - 1 - j;
      RowsExchanged(rows, w, j, l);
      Exchange(data, w * j, w * (h - 1 - j), w);
      ReverseOneMore(rows, rows0, j);
      rows := rows[j := rows[l]][l := rows[j]];
      j := j + 1;
    }
    AllReversed(rows, rows0, j);
  }
}
