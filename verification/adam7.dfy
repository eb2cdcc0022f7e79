/**
 Adam7 interlacing: the seven passes as the decoder computes them, against the
 8 by 8 pattern of section 2.6 of RFC 2083.
 */
module Adam7 {

  // ----- the decoder's tables

  function XOrig(p: nat): nat { match p case 1 => 4 case 3 => 2 case 5 => 1 case _ => 0 }

  function YOrig(p: nat): nat { match p case 2 => 4 case 4 => 2 case 6 => 1 case _ => 0 }

  function XSpc(p: nat): (r: nat)
    ensures r > 0
  {
    match p case 0 => 8 case 1 => 8 case 2 => 4 case 3 => 4 case 4 => 2 case 5 => 2 case _ => 1
  }

  function YSpc(p: nat): (r: nat)
    ensures r > 0
  {
    match p case 0 => 8 case 1 => 8 case 2 => 8 case 3 => 4 case 4 => 4 case _ => 2
  }

  /** The width of pass `p` of an image of width `w`. */
  function PassW(w: nat, p: nat): nat
    requires w >= 1 && p < 7
  {
    (w - XOrig(p) + XSpc(p) - 1) / XSpc(p)
  }

  function PassH(h: nat, p: nat): nat
    requires h >= 1 && p < 7
  {
    (h - YOrig(p) + YSpc(p) - 1) / YSpc(p)
  }

  function OutX(p: nat, i: nat): nat {
    i * XSpc(p) + XOrig(p)
  }

  function OutY(p: nat, j: nat): nat {
    j * YSpc(p) + YOrig(p)
  }

  // ----- the standard's pattern

  const PATTERN: seq<seq<nat>> := [
    [1, 6, 4, 6, 2, 6, 4, 6],
    [7, 7, 7, 7, 7, 7, 7, 7],
    [5, 6, 5, 6, 5, 6, 5, 6],
    [7, 7, 7, 7, 7, 7, 7, 7],
    [3, 6, 4, 6, 3, 6, 4, 6],
    [7, 7, 7, 7, 7, 7, 7, 7],
    [5, 6, 5, 6, 5, 6, 5, 6],
    [7, 7, 7, 7, 7, 7, 7, 7]]

  /** The pass of the pixel at column `x` of row `y`, counted from 0. */
  function PassOf(x: nat, y: nat): (p: nat)
    ensures p < 7
  {
    PATTERN[y % 8][x % 8] - 1
  }

  /** The pattern, read as nested choices. */
  function Choice(c: nat, r: nat): nat {
    if r % 2 == 1 then 6
    else if c % 2 == 1 then 5
    else if r % 4 == 2 then 4
    else if c % 4 == 2 then 3
    else if r % 8 == 4 then 2
    else if c % 8 == 4 then 1
    else 0
  }

  lemma PatternIsChoice(c: nat, r: nat)
    requires c < 8 && r < 8
    ensures PATTERN[r][c] == Choice(c, r) + 1
  {
    var row := PATTERN[r];
    assert row[0] == Choice(0, r) + 1 && row[1] == Choice(1, r) + 1 && row[2] == Choice(2, r) + 1
           && row[3] == Choice(3, r) + 1;
    assert row[4] == Choice(4, r) + 1 && row[5] == Choice(5, r) + 1 && row[6] == Choice(6, r) + 1
           && row[7] == Choice(7, r) + 1;
    if c == 0 {} else if c == 1 {} else if c == 2 {} else if c == 3 {} else if c == 4 {} else if c == 5 {}
        else if c == 6 {} else {}
  }

  lemma Residue4(x: nat)
    ensures x % 8 % 4 == x % 4
  {
  }

  lemma Residue2(x: nat)
    ensures x % 8 % 2 == x % 2
  {
  }

  lemma Residue42(x: nat)
    ensures x % 4 % 2 == x % 2
  {
  }

  lemma Residues(x: nat)
    ensures x % 8 % 4 == x % 4 && x % 8 % 2 == x % 2 && x % 8 % 8 == x % 8 && x % 4 % 2 == x % 2
  {
    Residue4(x);
    Residue2(x);
    Residue42(x);
  }

  /** The passes are the residue classes that the decoder's tables describe. */
  lemma PassClass(x: nat, y: nat, p: nat)
    requires p < 7
    ensures PassOf(x, y) == p <==> x % XSpc(p) == XOrig(p) && y % YSpc(p) == YOrig(p)
  {
    hide PATTERN, PassOf;
    PassOfChoice(x, y);
    Residues(x);
    Residues(y);
    if p == 0 {} else if p == 1 {} else if p == 2 {} else if p == 3 {} else if p == 4 {} else if p == 5 {} else {}
  }

  lemma PassOfChoice(x: nat, y: nat)
    ensures PassOf(x, y) == Choice(x % 8, y % 8)
  {
    PatternIsChoice(x % 8, y % 8);
  }

  lemma Steps(i: nat, s: nat, o: nat, x: nat)
    requires s in {1, 2, 4, 8} && o < s
    ensures i * s + o == x <==> x % s == o && x / s == i
  {
    if s == 1 {} else if s == 2 {} else if s == 4 {} else {}
  }

  /** `i` counts the columns of pass `p` exactly as long as they are in the image. */
  lemma PassFits(w: nat, p: nat, i: nat)
    requires w >= 1 && p < 7
    ensures i < PassW(w, p) <==> OutX(p, i) < w
    ensures i < PassH(w, p) <==> OutY(p, i) < w
  {
  }

  /**
   Every pixel of the grid is the image of exactly one position of one pass, and
   every position of a pass goes to a pixel of the grid.
   */
  lemma Bijection(w: nat, h: nat, x: nat, y: nat, p: nat, i: nat, j: nat)
    requires w >= 1 && h >= 1 && p < 7
    ensures i < PassW(w, p) && j < PassH(h, p) <==> OutX(p, i) < w && OutY(p, j) < h
    ensures OutX(p, i) == x && OutY(p, j) == y <==> p == PassOf(x, y) && i == x / XSpc(p) && j == y / YSpc(p)
  {
    PassFits(w, p, i);
    PassFits(h, p, j);
    PassClass(x, y, p);
    Steps(i, XSpc(p), XOrig(p), x);
    Steps(j, YSpc(p), YOrig(p), y);
  }
}
