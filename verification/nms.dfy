/**
 Non-maximum suppression: detections without objectness go to the end, and for
 every class the rest are sorted by probability and the weaker of two overlapping
 ones is zeroed. Floating point is modelled by the real numbers.
 */
module Nms {

  datatype Box = Box(x: real, y: real, w: real, h: real)

  /** `id` stands for the pointer to the detection's own probabilities. */
  datatype Detection = Detection(id: nat, bbox: Box, objectness: real, prob: seq<real>, sortClass: int)

  // ----- overlap

  function Overlap(x1: real, w1: real, x2: real, w2: real): real {
    var l1, l2 := x1 - w1 / 2.0, x2 - w2 / 2.0;
    var left := if l1 > l2 then l1 else l2;
    var r1, r2 := x1 + w1 / 2.0, x2 + w2 / 2.0;
    var right := if r1 < r2 then r1 else r2;
    right - left
  }

  function Intersection(a: Box, b: Box): (r: real)
    ensures r >= 0.0
  {
    var w, h := Overlap(a.x, a.w, b.x, b.w), Overlap(a.y, a.h, b.y, b.h);
    if w < 0.0 || h < 0.0 then 0.0 else Product(w, h)
  }

  function Product(w: real, h: real): (r: real)
    requires w >= 0.0 && h >= 0.0
    ensures r >= 0.0
  {
    w * h
  }

  function Union(a: Box, b: Box): real {
    a.w * a.h + b.w * b.h - Intersection(a, b)
  }

  /**
   The comparison of the quotient with `thresh`; dividing by zero gives an infinity, which
   exceeds, or no number, which does not.
   */
  predicate Exceeds(a: Box, b: Box, thresh: real) {
    if Union(a, b) == 0.0 then Intersection(a, b) > 0.0 else Intersection(a, b) / Union(a, b) > thresh
  }

  lemma ExceedsSymmetric(a: Box, b: Box, thresh: real)
    ensures Exceeds(a, b, thresh) <==> Exceeds(b, a, thresh)
  {
    assert Overlap(a.x, a.w, b.x, b.w) == Overlap(b.x, b.w, a.x, a.w);
    assert Overlap(a.y, a.h, b.y, b.h) == Overlap(b.y, b.h, a.y, a.h);
    assert Intersection(a, b) == Intersection(b, a);
    assert Union(a, b) == Union(b, a);
  }

  // ----- what the overlap is

  predicate Sides(a: Box) {
    a.w >= 0.0 && a.h >= 0.0
  }

  function Distance(x: real, y: real): real {
    if x < y then y - x else x - y
  }

  /** How much two stretches have in common, by their lengths and the distance of their middles. */
  function Common(w1: real, w2: real, d: real): (r: real)
    ensures r >= 0.0
  {
    var part := (w1 + w2) / 2.0 - d;
    var shorter := if w1 < w2 then w1 else w2;
    if part < 0.0 || shorter < 0.0 then 0.0 else if part < shorter then part else shorter
  }

  /** The area that two boxes have in common. */
  function Shared(a: Box, b: Box): real {
    Product(Common(a.w, b.w, Distance(a.x, b.x)), Common(a.h, b.h, Distance(a.y, b.y)))
  }

  lemma OverlapIsCommon(x1: real, w1: real, x2: real, w2: real)
    requires w1 >= 0.0 && w2 >= 0.0
    ensures Overlap(x1, w1, x2, w2) >= 0.0 ==> Common(w1, w2, Distance(x1, x2)) == Overlap(x1, w1, x2, w2)
    ensures Overlap(x1, w1, x2, w2) < 0.0 ==> Common(w1, w2, Distance(x1, x2)) == 0.0
  {
  }

  lemma IntersectionIsShared(a: Box, b: Box)
    requires Sides(a) && Sides(b)
    ensures Intersection(a, b) == Shared(a, b)
  {
    OverlapIsCommon(a.x, a.w, b.x, b.w);
    OverlapIsCommon(a.y, a.h, b.y, b.h);
    hide Overlap, Common;
  }

  function Area(a: Box): real {
    a.w * a.h
  }

  /** The area that two boxes cover together. */
  function Covered(a: Box, b: Box): real {
    Area(a) + Area(b) - Shared(a, b)
  }

  lemma ProductMono(w: real, h: real, w': real, h': real)
    requires 0.0 <= w <= w' && 0.0 <= h <= h'
    ensures 0.0 <= w * h <= w' * h'
  {
    assert w' * h' - w * h == (w' - w) * h' + w * (h' - h);
  }

  lemma CommonAtMost(w1: real, w2: real, d: real)
    requires w1 >= 0.0 && w2 >= 0.0 && d >= 0.0
    ensures Common(w1, w2, d) <= w1 && Common(w1, w2, d) <= w2
  {
  }

  lemma SharedAtMost(a: Box, b: Box)
    requires Sides(a) && Sides(b)
    ensures 0.0 <= Shared(a, b) <= Area(a) && Shared(a, b) <= Area(b)
  {
    var w, h := Common(a.w, b.w, Distance(a.x, b.x)), Common(a.h, b.h, Distance(a.y, b.y));
    CommonAtMost(a.w, b.w, Distance(a.x, b.x));
    CommonAtMost(a.h, b.h, Distance(a.y, b.y));
    hide Common, Distance, Product, Area;
    ProductAtMost(w, h, a);
    ProductAtMost(w, h, b);
  }

  lemma ProductAtMost(w: real, h: real, a: Box)
    requires 0.0 <= w <= a.w && 0.0 <= h <= a.h
    ensures 0.0 <= Product(w, h) <= Area(a)
  {
    ProductMono(w, h, a.w, a.h);
  }

  lemma QuotientAbove(x: real, y: real, t: real)
    requires y > 0.0
    ensures x / y > t <==> x > t * y
  {
    var q := x / y;
    assert x == q * y;
    assert (q - t) * y == x - t * y;
    if q > t { assert (q - t) * y > 0.0; } else { assert (t - q) * y >= 0.0; }
  }

  lemma QuotientOrNone(x: real, y: real, t: real)
    requires x >= 0.0 && y >= 0.0 && (y == 0.0 ==> x == 0.0)
    ensures (if y == 0.0 then x > 0.0 else x / y > t) <==> x > t * y
  {
    if y > 0.0 { QuotientAbove(x, y, t); } else { assert t * y == 0.0; }
  }

  lemma UnionIsCovered(a: Box, b: Box)
    requires Sides(a) && Sides(b)
    ensures Union(a, b) == Covered(a, b)
  {
    IntersectionIsShared(a, b);
    hide Shared, Intersection;
  }

  /** The comparison without a quotient: the area in common against the area covered. */
  lemma ExceedsIff(a: Box, b: Box, thresh: real)
    requires Sides(a) && Sides(b)
    ensures Exceeds(a, b, thresh) <==> Shared(a, b) > thresh * Covered(a, b)
  {
    IntersectionIsShared(a, b);
    UnionIsCovered(a, b);
    SharedAtMost(a, b);
    assert Covered(a, b) == Area(a) + Area(b) - Shared(a, b);
    hide Shared, Intersection, Union, Area, Covered;
    QuotientOrNone(Shared(a, b), Covered(a, b), thresh);
  }

  lemma Scaled(x: real, y: real, s: real)
    requires s > 0.0
    ensures x > y <==> x * s > y * s
  {
    if x > y { assert (x - y) * s > 0.0; } else { assert (y - x) * s >= 0.0; }
  }

  /** A box exceeds with itself exactly any threshold below one. */
  lemma SameBox(a: Box, thresh: real)
    requires a.w > 0.0 && a.h > 0.0
    ensures Exceeds(a, a, thresh) <==> thresh < 1.0
  {
    ExceedsIff(a, a, thresh);
    var s := Area(a);
    assert Shared(a, a) == Covered(a, a) == s > 0.0;
    hide Exceeds, Shared, Covered, Area;
    Scaled(1.0, thresh, s);
  }

  /** Boxes with nothing in common do not exceed. */
  lemma BoxesApart(a: Box, b: Box, thresh: real)
    requires Sides(a) && Sides(b) && thresh >= 0.0
    requires Distance(a.x, b.x) >= (a.w + b.w) / 2.0 || Distance(a.y, b.y) >= (a.h + b.h) / 2.0
    ensures !Exceeds(a, b, thresh)
  {
    ExceedsIff(a, b, thresh);
    SharedAtMost(a, b);
    assert Shared(a, b) == 0.0;
    assert Covered(a, b) >= 0.0;
    hide Exceeds, Shared, Covered, Area;
    ProductMono(0.0, 0.0, thresh, Covered(a, b));
  }

  /** Of a box within another the areas are compared. */
  lemma BoxWithin(a: Box, b: Box, thresh: real)
    requires Sides(a) && Sides(b)
    requires Distance(a.x, b.x) <= (a.w - b.w) / 2.0 && Distance(a.y, b.y) <= (a.h - b.h) / 2.0
    ensures Exceeds(a, b, thresh) <==> b.w * b.h > thresh * (a.w * a.h)
  {
    ExceedsIff(a, b, thresh);
    WithinShared(a, b);
    hide Exceeds, Shared, Covered;
  }

  lemma WithinShared(a: Box, b: Box)
    requires Sides(a) && Sides(b)
    requires Distance(a.x, b.x) <= (a.w - b.w) / 2.0 && Distance(a.y, b.y) <= (a.h - b.h) / 2.0
    ensures Shared(a, b) == b.w * b.h && Covered(a, b) == a.w * a.h
  {
    assert Common(a.w, b.w, Distance(a.x, b.x)) == b.w && Common(a.h, b.h, Distance(a.y, b.y)) == b.h;
    hide Common;
  }

  /** Of two boxes of one size, one shifted, the stretches are compared. */
  lemma SideBySide(a: Box, b: Box, thresh: real)
    requires a.w > 0.0 && a.h > 0.0 && a.w == b.w && a.h == b.h && a.y == b.y && Distance(a.x, b.x) <= a.w
    ensures Exceeds(a, b, thresh) <==> a.w - Distance(a.x, b.x) > thresh * (a.w + Distance(a.x, b.x))
  {
    ExceedsIff(a, b, thresh);
    var d := Distance(a.x, b.x);
    assert Common(a.w, b.w, d) == a.w - d && Common(a.h, b.h, 0.0) == a.h;
    hide Common;
    assert Shared(a, b) == (a.w - d) * a.h && Covered(a, b) == (a.w + d) * a.h;
    hide Exceeds, Shared, Covered, Area;
    Associated(thresh, a.w + d, a.h);
    Scaled(a.w - d, thresh * (a.w + d), a.h);
  }

  lemma Associated(x: real, y: real, z: real)
    ensures x * (y * z) == (x * y) * z
  {
  }

  // ----- sorting

  /** What is compared when sorting for class `c`, or by objectness if `c` is -1. */
  function SortKey(d: Detection, c: int): real {
    if 0 <= c < |d.prob| then d.prob[c] else d.objectness
  }

  function Comparator(a: Detection, b: Detection): int {
    var diff := SortKey(a, b.sortClass) - SortKey(b, b.sortClass);
    if diff < 0.0 then 1 else if diff > 0.0 then -1 else 0
  }

  /** Greatest key first. */
  predicate Sorted(s: seq<Detection>, c: int) {
    forall i, j :: 0 <= i < j < |s| ==> SortKey(s[i], c) >= SortKey(s[j], c)
  }

  function Insert(x: Detection, s: seq<Detection>, c: int): (r: seq<Detection>)
    ensures multiset(r) == multiset(s) + multiset{x} && |r| == |s| + 1
  {
    if s == [] then [x]
    else if SortKey(x, c) >= SortKey(s[0], c) then [x] + s
    else
      assert s == [s[0]] + s[1..];
      [s[0]] + Insert(x, s[1..], c)
  }

  lemma {:induction false} InsertSorts(x: Detection, s: seq<Detection>, c: int)
    requires Sorted(s, c)
    ensures Sorted(Insert(x, s, c), c)
  {
    if s != [] && SortKey(x, c) < SortKey(s[0], c) {
      InsertSorts(x, s[1..], c);
      var rest := Insert(x, s[1..], c);
      forall i | 0 <= i < |rest| ensures SortKey(s[0], c) >= SortKey(rest[i], c) {
        assert rest[i] in multiset(rest);
        assert rest[i] == x || rest[i] in s[1..];
      }
    }
  }

  function SortSeq(s: seq<Detection>, c: int): (r: seq<Detection>)
    ensures multiset(r) == multiset(s) && |r| == |s| && Sorted(r, c)
  {
    if s == [] then []
    else
      assert s == [s[0]] + s[1..];
      InsertSorts(s[0], SortSeq(s[1..], c), c);
      Insert(s[0], SortSeq(s[1..], c), c)
  }

  /** Stands for the C library's `qsort` with the comparator; only its contract is used. */
  method QSort(dets: array<Detection>, total: nat, c: int)
    requires total <= dets.Length && forall i :: 0 <= i < total ==> dets[i].sortClass == c
    modifies dets
    ensures multiset(dets[..total]) == old(multiset(dets[..total])) && dets[total..] == old(dets[total..])
    ensures forall i, j :: 0 <= i < j < total ==> Comparator(dets[i], dets[j]) <= 0
    ensures Sorted(dets[..total], c)
  {
    hide SortSeq, Sorted, Comparator;
    var sorted := SortSeq(dets[..total], c);
    SortedCompares(dets[..total], sorted, c);
    forall i | 0 <= i < total { dets[i] := sorted[i]; }
    assert dets[..total] == sorted;
    assert dets[total..] == old(dets[total..]);
  }

  /** Sorting by one class is sorting by the comparator, for which all must be set to that class. */
  lemma SortedCompares(s: seq<Detection>, sorted: seq<Detection>, c: int)
    requires multiset(sorted) == multiset(s) && Sorted(sorted, c) && forall i :: 0 <= i < |s| ==> s[i].sortClass == c
    ensures |sorted| == |s| && forall i, j :: 0 <= i < j < |sorted| ==> Comparator(sorted[i], sorted[j]) <= 0
  {
    assert |multiset(sorted)| == |sorted| && |multiset(s)| == |s|;
    forall i | 0 <= i < |sorted| ensures sorted[i].sortClass == c { assert sorted[i] in multiset(s); }
  }

  // ----- the passes

  method Swap(dets: array<Detection>, i: nat, k: nat)
    requires i < dets.Length && k < dets.Length
    modifies dets
    ensures dets[..] == old(dets[..])[i := old(dets[k])][k := old(dets[i])]
    ensures multiset(dets[..]) == old(multiset(dets[..]))
  {
    dets[i], dets[k] := dets[k], dets[i];
  }

  /** Moves the detections without objectness behind the others; returns how many others there are. */
  method Partition(dets: array<Detection>) returns (total: nat)
    modifies dets
    ensures total <= dets.Length && multiset(dets[..]) == old(multiset(dets[..]))
    ensures forall i :: 0 <= i < total ==> dets[i].objectness != 0.0
    ensures forall i :: total <= i < dets.Length ==> dets[i].objectness == 0.0
  {
    var k: int := dets.Length - 1;
    var i: nat := 0;
    while i <= k
      invariant -1 <= k < dets.Length && i <= k + 1
      invariant multiset(dets[..]) == old(multiset(dets[..]))
      invariant forall j :: 0 <= j < i ==> dets[j].objectness != 0.0
      invariant forall j :: k < j < dets.Length ==> dets[j].objectness == 0.0
      decreases k - i
    {
      if dets[i].objectness == 0.0 {
        Swap(dets, i, k);
        k := k - 1;
      } else {
        i := i + 1;
      }
    }
    total := k + 1;
  }

  function Zeroed(d: Detection, c: nat): Detection
    requires c < |d.prob|
  {
    d.(prob := d.prob[c := 0.0])
  }

  /** All have a probability for class `c`. */
  predicate HasClass(s: seq<Detection>, c: nat) {
    forall i :: 0 <= i < |s| ==> c < |s[i].prob|
  }

  /** A surviving earlier detection, below place `n`, overlaps the one at `j`. */
  predicate Beaten(s: seq<Detection>, c: nat, thresh: real, n: nat, j: nat)
    requires j < |s| && HasClass(s, c)
  {
    exists i :: 0 <= i < j && i < n && s[i].prob[c] != 0.0 && Exceeds(s[i].bbox, s[j].bbox, thresh)
  }

  /** The detection at `j` is as before and not beaten unless dead, or it is beaten and zeroed. */
  predicate Decided(before: seq<Detection>, after: seq<Detection>, c: nat, thresh: real, n: nat, j: nat)
    requires j < |before| == |after| && HasClass(before, c) && HasClass(after, c)
  {
    after[j] == if Beaten(after, c, thresh, n, j) then Zeroed(before[j], c) else before[j]
  }

  predicate AllDecided(before: seq<Detection>, after: seq<Detection>, c: nat, thresh: real, n: nat) {
    && |before| == |after| && HasClass(before, c) && HasClass(after, c)
    && forall j :: 0 <= j < |before| ==> Decided(before, after, c, thresh, n, j)
  }

  /** Detection `j` once the one at `n` has been compared with it. */
  function Compared(s: seq<Detection>, c: nat, thresh: real, n: nat, j: nat): Detection
    requires n < |s| && j < |s| && HasClass(s, c)
  {
    if s[n].prob[c] != 0.0 && j > n && Exceeds(s[n].bbox, s[j].bbox, thresh) then Zeroed(s[j], c) else s[j]
  }

  /** One more detection has been compared with all later ones. */
  lemma DecideNext(before: seq<Detection>, s: seq<Detection>, after: seq<Detection>, c: nat, thresh: real, n: nat)
    requires n < |s| == |after| && AllDecided(before, s, c, thresh, n)
    requires forall j :: 0 <= j < |s| ==> after[j] == Compared(s, c, thresh, n, j)
    ensures AllDecided(before, after, c, thresh, n + 1)
  {
    assert HasClass(after, c);
    var m := n + 1;
    forall j | 0 <= j < |s| ensures Decided(before, after, c, thresh, m, j) {
      assert Decided(before, s, c, thresh, n, j);
      assert after[n] == s[n];
      if Beaten(s, c, thresh, n, j) {
        var i :| 0 <= i < j && i < n && s[i].prob[c] != 0.0 && Exceeds(s[i].bbox, s[j].bbox, thresh);
        assert after[i] == s[i];
        assert Beaten(after, c, thresh, m, j);
      } else if Beaten(after, c, thresh, m, j) {
        var i :| 0 <= i < j && i < m && after[i].prob[c] != 0.0 && Exceeds(after[i].bbox, after[j].bbox, thresh);
        assert after[i].prob[c] == s[i].prob[c];
      }
    }
  }

  /** Zeroes class `c` of every later detection that overlaps the one at `i`. */
  method SuppressAfter(dets: array<Detection>, total: nat, c: nat, thresh: real, i: nat)
    requires i < total <= dets.Length && HasClass(dets[..total], c) && dets[i].prob[c] != 0.0
    modifies dets
    ensures dets[total..] == old(dets[total..])
    ensures forall j :: 0 <= j < total ==> dets[j] == Compared(old(dets[..total]), c, thresh, i, j)
  {
    ghost var s := dets[..total];
    assert forall j :: 0 <= j < total ==> c < |s[j].prob|;
    var a := dets[i].bbox;
    for j := i + 1 to total
      invariant dets[total..] == old(dets[total..])
      invariant forall q :: 0 <= q < total ==> dets[q] == if q < j then Compared(s, c, thresh, i, q) else s[q]
    {
      if Exceeds(a, dets[j].bbox, thresh) {
        dets[j] := Zeroed(dets[j], c);
      }
    }
  }

  /** The suppression loops for one class: each detection is zeroed exactly when a survivor before it overlaps it. */
  method Suppress(dets: array<Detection>, total: nat, c: nat, thresh: real)
    requires total <= dets.Length && HasClass(dets[..total], c)
    modifies dets
    ensures dets[total..] == old(dets[total..])
    ensures AllDecided(old(dets[..total]), dets[..total], c, thresh, total)
  {
    assert AllDecided(old(dets[..total]), dets[..total], c, thresh, 0);
    for i := 0 to total
      invariant dets[total..] == old(dets[total..])
      invariant AllDecided(old(dets[..total]), dets[..total], c, thresh, i)
    {
      hide AllDecided, Exceeds;
      ghost var s := dets[..total];
      assert HasClass(s, c) by { DecidedClass(old(dets[..total]), s, c, thresh, i); }
      assert c < |s[i].prob|;
      if dets[i].prob[c] != 0.0 {
        SuppressAfter(dets, total, c, thresh, i);
      }
      DecidedClass(old(dets[..total]), s, c, thresh, i);
      DecideNext(old(dets[..total]), s, dets[..total], c, thresh, i);
    }
  }

  lemma DecidedClass(before: seq<Detection>, after: seq<Detection>, c: nat, thresh: real, n: nat)
    requires AllDecided(before, after, c, thresh, n)
    ensures |before| == |after| && HasClass(before, c) && HasClass(after, c)
  {
  }

  // ----- the whole of it

  predicate DistinctIds(s: seq<Detection>) {
    forall i, j :: 0 <= i < j < |s| ==> s[i].id != s[j].id
  }

  /** The detection as it was at the start. */
  predicate IsFrom(d: Detection, origin: map<nat, Detection>, classes: nat) {
    && d.id in origin && d.bbox == origin[d.id].bbox && d.objectness == origin[d.id].objectness
    && |d.prob| == |origin[d.id].prob| == classes
  }

  predicate AllFrom(s: seq<Detection>, origin: map<nat, Detection>, classes: nat) {
    forall i :: 0 <= i < |s| ==> IsFrom(s[i], origin, classes)
  }

  /** Detection `j` lost class `k` to a survivor that it overlaps and that was at least as probable. */
  predicate LostTo(s: seq<Detection>, origin: map<nat, Detection>, classes: nat, k: nat, thresh: real, j: nat, i: nat)
    requires AllFrom(s, origin, classes) && k < classes && i < |s| && j < |s|
  {
    && s[j].prob[k] == 0.0 && s[i].prob[k] != 0.0
    && s[i].prob[k] == origin[s[i].id].prob[k] >= origin[s[j].id].prob[k]
    && Exceeds(s[i].bbox, s[j].bbox, thresh)
  }

  predicate Lost(s: seq<Detection>, origin: map<nat, Detection>, classes: nat, k: nat, thresh: real, j: nat)
    requires AllFrom(s, origin, classes) && k < classes && j < |s|
  {
    exists i :: 0 <= i < |s| && LostTo(s, origin, classes, k, thresh, j, i)
  }

  /** Two detections that are alive for class `k` do not overlap. */
  predicate Compatible(s: seq<Detection>, k: nat, thresh: real, i: nat, j: nat)
    requires i < |s| && j < |s| && k < |s[i].prob| && k < |s[j].prob|
  {
    s[i].prob[k] != 0.0 && s[j].prob[k] != 0.0 ==> !Exceeds(s[i].bbox, s[j].bbox, thresh)
  }

  /** Suppression is complete for class `k`, and justified. */
  predicate ClassDone(s: seq<Detection>, origin: map<nat, Detection>, classes: nat, k: nat, thresh: real)
    requires AllFrom(s, origin, classes) && k < classes
  {
    && (forall i, j :: 0 <= i < |s| && 0 <= j < |s| && i != j ==> Compatible(s, k, thresh, i, j))
    && (forall j :: 0 <= j < |s| ==>
          s[j].prob[k] == origin[s[j].id].prob[k] || Lost(s, origin, classes, k, thresh, j))
  }

  /** Class `k` is as it was at the start. */
  predicate Untouched(s: seq<Detection>, origin: map<nat, Detection>, classes: nat, k: nat)
    requires AllFrom(s, origin, classes) && k < classes
  {
    forall j :: 0 <= j < |s| ==> s[j].prob[k] == origin[s[j].id].prob[k]
  }

  predicate SameFor(d: Detection, e: Detection, k: nat) {
    d.id == e.id && d.bbox == e.bbox && k < |d.prob| == |e.prob| && d.prob[k] == e.prob[k]
  }

  /** What is known of class `k` depends only on the detections' boxes and their probabilities for it. */
  lemma PointwiseKeeps(s: seq<Detection>, t: seq<Detection>, origin: map<nat, Detection>, classes: nat, k: nat,
                       thresh: real)
    requires AllFrom(s, origin, classes) && AllFrom(t, origin, classes) && k < classes && |s| == |t|
    requires forall i :: 0 <= i < |s| ==> SameFor(s[i], t[i], k)
    ensures ClassDone(s, origin, classes, k, thresh) ==> ClassDone(t, origin, classes, k, thresh)
    ensures Untouched(s, origin, classes, k) ==> Untouched(t, origin, classes, k)
  {
    hide Exceeds;
    if ClassDone(s, origin, classes, k, thresh) {
      forall i, j | 0 <= i < |t| && 0 <= j < |t| && i != j ensures Compatible(t, k, thresh, i, j) {
        assert SameFor(s[i], t[i], k) && SameFor(s[j], t[j], k) && Compatible(s, k, thresh, i, j);
      }
      forall j | 0 <= j < |t|
        ensures t[j].prob[k] == origin[t[j].id].prob[k] || Lost(t, origin, classes, k, thresh, j)
      {
        assert SameFor(s[j], t[j], k);
        if Lost(s, origin, classes, k, thresh, j) {
          var i :| 0 <= i < |s| && LostTo(s, origin, classes, k, thresh, j, i);
          assert LostTo(t, origin, classes, k, thresh, j, i);
        }
      }
    }
  }

  /** Nor does it depend on their order. */
  lemma PermutationKeeps(s: seq<Detection>, t: seq<Detection>, origin: map<nat, Detection>, classes: nat, k: nat,
                         thresh: real)
    requires AllFrom(s, origin, classes) && AllFrom(t, origin, classes) && k < classes
    requires multiset(s) == multiset(t) && DistinctIds(t)
    ensures ClassDone(s, origin, classes, k, thresh) ==> ClassDone(t, origin, classes, k, thresh)
    ensures Untouched(s, origin, classes, k) ==> Untouched(t, origin, classes, k)
  {
    hide Exceeds;
    forall i | 0 <= i < |t| ensures t[i] in s { assert t[i] in multiset(s); }
    forall i | 0 <= i < |s| ensures s[i] in t { assert s[i] in multiset(t); }
    if ClassDone(s, origin, classes, k, thresh) {
      forall i, j | 0 <= i < |t| && 0 <= j < |t| && i != j ensures Compatible(t, k, thresh, i, j) {
        var p :| 0 <= p < |s| && s[p] == t[i];
        var q :| 0 <= q < |s| && s[q] == t[j];
        assert Compatible(s, k, thresh, p, q);
      }
      forall j | 0 <= j < |t|
        ensures t[j].prob[k] == origin[t[j].id].prob[k] || Lost(t, origin, classes, k, thresh, j)
      {
        var q :| 0 <= q < |s| && s[q] == t[j];
        if Lost(s, origin, classes, k, thresh, q) {
          var p :| 0 <= p < |s| && LostTo(s, origin, classes, k, thresh, q, p);
          var i :| 0 <= i < |t| && t[i] == s[p];
          assert LostTo(t, origin, classes, k, thresh, j, i);
        }
      }
    }
  }

  lemma PermutationDistinct(s: seq<Detection>, t: seq<Detection>)
    requires multiset(s) == multiset(t) && DistinctIds(s)
    ensures DistinctIds(t) && |s| == |t|
  {
    assert |multiset(s)| == |s| && |multiset(t)| == |t|;
    forall i, j | 0 <= i < j < |t| ensures t[i].id != t[j].id {
      assert t[i] in multiset(s) && t[j] in multiset(s);
      if t[i] == t[j] {
        AtMostOnce(s, t[i]);
        TwiceInMultiset(t, i, j);
      }
    }
  }

  lemma {:induction false} AtMostOnce(s: seq<Detection>, d: Detection)
    requires DistinctIds(s)
    ensures multiset(s)[d] <= 1
    decreases |s|
  {
    if s != [] {
      var n := |s| - 1;
      assert s == s[..n] + [s[n]];
      AtMostOnce(s[..n], d);
      if d == s[n] { assert d !in s[..n]; }
    }
  }

  lemma TwiceInMultiset(t: seq<Detection>, i: nat, j: nat)
    requires i < j < |t| && t[i] == t[j]
    ensures multiset(t)[t[i]] >= 2
  {
    assert t == t[..i] + [t[i]] + t[i + 1..j] + [t[j]] + t[j + 1..];
  }

  /** Suppressing a sorted, untouched class completes it. */
  lemma SuppressDone(before: seq<Detection>, after: seq<Detection>, origin: map<nat, Detection>, classes: nat, k: nat,
                     thresh: real)
    requires AllFrom(before, origin, classes) && AllFrom(after, origin, classes) && k < classes
    requires Untouched(before, origin, classes, k) && Sorted(before, k)
    requires AllDecided(before, after, k, thresh, |before|)
    ensures ClassDone(after, origin, classes, k, thresh)
  {
    hide Exceeds;
    var n := |before|;
    forall i, j | 0 <= i < |after| && 0 <= j < |after| && i != j ensures Compatible(after, k, thresh, i, j) {
      assert Decided(before, after, k, thresh, n, i) && Decided(before, after, k, thresh, n, j);
      ExceedsSymmetric(after[i].bbox, after[j].bbox, thresh);
    }
    forall j | 0 <= j < |after|
      ensures after[j].prob[k] == origin[after[j].id].prob[k] || Lost(after, origin, classes, k, thresh, j)
    {
      assert Decided(before, after, k, thresh, n, j);
      if Beaten(after, k, thresh, n, j) {
        var i :| 0 <= i < j && i < n && after[i].prob[k] != 0.0 && Exceeds(after[i].bbox, after[j].bbox, thresh);
        assert Decided(before, after, k, thresh, n, i);
        assert SortKey(before[i], k) >= SortKey(before[j], k);
        assert LostTo(after, origin, classes, k, thresh, j, i);
      }
    }
  }

  /** The identities of some detections. */
  function Ids(s: seq<Detection>): set<nat> {
    set d | d in s :: d.id
  }

  lemma SameIds(s: seq<Detection>, t: seq<Detection>)
    requires |s| == |t| && forall i :: 0 <= i < |s| ==> s[i].id == t[i].id
    ensures Ids(s) == Ids(t) && (DistinctIds(s) ==> DistinctIds(t))
  {
    forall i | 0 <= i < |s| ensures s[i].id in Ids(t) && t[i].id in Ids(s) { assert t[i] in t && s[i] in s; }
    forall d | d in s ensures d.id in Ids(t) { var i :| 0 <= i < |s| && s[i] == d; }
    forall d | d in t ensures d.id in Ids(s) { var i :| 0 <= i < |t| && t[i] == d; }
  }

  lemma PermutedIds(s: seq<Detection>, t: seq<Detection>, origin: map<nat, Detection>, classes: nat)
    requires multiset(s) == multiset(t) && DistinctIds(s) && AllFrom(s, origin, classes)
    ensures |s| == |t| && DistinctIds(t) && Ids(t) == Ids(s) && AllFrom(t, origin, classes)
  {
    PermutationDistinct(s, t);
    forall i | 0 <= i < |t| ensures t[i] in s { assert t[i] in multiset(s); }
    forall i | 0 <= i < |s| ensures s[i] in t { assert s[i] in multiset(t); }
  }

  /** Before class `k` is processed: the classes below it are done, the others as they were. */
  ghost predicate Progress(s: seq<Detection>, ids: set<nat>, origin: map<nat, Detection>, classes: nat, k: nat,
                           thresh: real) {
    && AllFrom(s, origin, classes) && DistinctIds(s) && Ids(s) == ids
    && (forall c :: 0 <= c < k && c < classes ==> ClassDone(s, origin, classes, c, thresh))
    && (forall c :: k <= c < classes ==> Untouched(s, origin, classes, c))
  }

  lemma PointwiseProgress(s: seq<Detection>, t: seq<Detection>, ids: set<nat>, origin: map<nat, Detection>,
                          classes: nat, k: nat, thresh: real)
    requires Progress(s, ids, origin, classes, k, thresh) && |s| == |t|
    requires forall i :: 0 <= i < |s| ==> t[i] == s[i].(sortClass := t[i].sortClass)
    ensures Progress(t, ids, origin, classes, k, thresh)
  {
    hide ClassDone, Untouched;
    SameIds(s, t);
    forall i | 0 <= i < |t| ensures IsFrom(t[i], origin, classes) { assert IsFrom(s[i], origin, classes); }
    forall c | 0 <= c < classes
      ensures ClassDone(s, origin, classes, c, thresh) ==> ClassDone(t, origin, classes, c, thresh)
      ensures Untouched(s, origin, classes, c) ==> Untouched(t, origin, classes, c)
    {
      forall i | 0 <= i < |s| ensures SameFor(s[i], t[i], c) { assert IsFrom(s[i], origin, classes); }
      PointwiseKeeps(s, t, origin, classes, c, thresh);
    }
  }

  lemma PermutationProgress(s: seq<Detection>, t: seq<Detection>, ids: set<nat>, origin: map<nat, Detection>,
                            classes: nat, k: nat, thresh: real)
    requires Progress(s, ids, origin, classes, k, thresh) && multiset(s) == multiset(t)
    ensures Progress(t, ids, origin, classes, k, thresh)
  {
    hide ClassDone, Untouched;
    PermutedIds(s, t, origin, classes);
    forall c | 0 <= c < classes
      ensures ClassDone(s, origin, classes, c, thresh) ==> ClassDone(t, origin, classes, c, thresh)
      ensures Untouched(s, origin, classes, c) ==> Untouched(t, origin, classes, c)
    {
      PermutationKeeps(s, t, origin, classes, c, thresh);
    }
  }

  lemma SuppressProgress(s: seq<Detection>, t: seq<Detection>, ids: set<nat>, origin: map<nat, Detection>,
                         classes: nat, k: nat, thresh: real)
    requires Progress(s, ids, origin, classes, k, thresh) && k < classes && Sorted(s, k)
    requires AllDecided(s, t, k, thresh, |s|)
    ensures Progress(t, ids, origin, classes, k + 1, thresh)
  {
    forall i | 0 <= i < |t|
      ensures IsFrom(t[i], origin, classes) && s[i].id == t[i].id
      ensures forall c :: 0 <= c < classes && c != k ==> SameFor(s[i], t[i], c)
    {
      assert IsFrom(s[i], origin, classes) && Decided(s, t, k, thresh, |s|, i);
    }
    hide ClassDone, Untouched, Decided;
    SameIds(s, t);
    SuppressDone(s, t, origin, classes, k, thresh);
    forall c | 0 <= c < classes && c != k
      ensures ClassDone(s, origin, classes, c, thresh) ==> ClassDone(t, origin, classes, c, thresh)
      ensures Untouched(s, origin, classes, c) ==> Untouched(t, origin, classes, c)
    {
      PointwiseKeeps(s, t, origin, classes, c, thresh);
    }
  }

  /** Sorts and suppresses for class `k`. */
  method DoClass(dets: array<Detection>, total: nat, k: nat, thresh: real,
                 ghost ids: set<nat>, ghost origin: map<nat, Detection>, ghost classes: nat)
    requires total <= dets.Length && k < classes && Progress(dets[..total], ids, origin, classes, k, thresh)
    modifies dets
    ensures dets[total..] == old(dets[total..])
    ensures Progress(dets[..total], ids, origin, classes, k + 1, thresh)
  {
    hide Progress, AllDecided, Sorted;
    ghost var s0 := dets[..total];
    SetClass(dets, total, k);
    ghost var s1 := dets[..total];
    PointwiseProgress(s0, s1, ids, origin, classes, k, thresh);
    QSort(dets, total, k);
    ghost var s2 := dets[..total];
    PermutationProgress(s1, s2, ids, origin, classes, k, thresh);
    ProgressHasClass(s2, ids, origin, classes, k, thresh);
    Suppress(dets, total, k, thresh);
    SuppressProgress(s2, dets[..total], ids, origin, classes, k, thresh);
  }

  lemma ProgressHasClass(s: seq<Detection>, ids: set<nat>, origin: map<nat, Detection>, classes: nat, k: nat,
                         thresh: real)
    requires Progress(s, ids, origin, classes, k, thresh) && k < classes
    ensures HasClass(s, k)
  {
    forall i | 0 <= i < |s| ensures k < |s[i].prob| { assert IsFrom(s[i], origin, classes); }
  }

  method SetClass(dets: array<Detection>, total: nat, k: int)
    requires total <= dets.Length
    modifies dets
    ensures dets[total..] == old(dets[total..])
    ensures forall i :: 0 <= i < total ==> dets[i] == old(dets[i]).(sortClass := k)
  {
    for i := 0 to total
      invariant forall j :: 0 <= j < dets.Length ==>
                  dets[j] == if j < i then old(dets[j]).(sortClass := k) else old(dets[j])
    {
      dets[i] := dets[i].(sortClass := k);
    }
  }

  /** Each detection by its identity. */
  function Origin(s: seq<Detection>): map<nat, Detection> {
    if s == [] then map[] else Origin(s[..|s| - 1])[s[|s| - 1].id := s[|s| - 1]]
  }

  lemma {:induction false} OriginAt(s: seq<Detection>, i: nat)
    requires DistinctIds(s) && i < |s|
    ensures s[i].id in Origin(s) && Origin(s)[s[i].id] == s[i]
  {
    if i < |s| - 1 { OriginAt(s[..|s| - 1], i); }
  }

  lemma StartProgress(s: seq<Detection>, start: seq<Detection>, classes: nat, thresh: real)
    requires DistinctIds(start) && DistinctIds(s) && forall i :: 0 <= i < |start| ==> |start[i].prob| == classes
    requires forall i :: 0 <= i < |s| ==> s[i] in start
    ensures Progress(s, Ids(s), Origin(start), classes, 0, thresh)
  {
    forall i | 0 <= i < |s| ensures IsFrom(s[i], Origin(start), classes) && Origin(start)[s[i].id] == s[i] {
      var j :| 0 <= j < |start| && start[j] == s[i];
      OriginAt(start, j);
    }
  }

  /**
   The first `total` detections are exactly those with objectness, and suppression
   among them is complete and justified for every class; the others are unchanged.
   */
  method DoNmsSort(dets: array<Detection>, classes: nat, thresh: real) returns (total: nat)
    requires DistinctIds(dets[..]) && forall i :: 0 <= i < dets.Length ==> |dets[i].prob| == classes
    modifies dets
    ensures total <= dets.Length
    ensures var origin := Origin(old(dets[..]));
            && AllFrom(dets[..], origin, classes)
            && DistinctIds(dets[..]) && Ids(dets[..]) == Ids(old(dets[..]))
            && (forall i :: 0 <= i < dets.Length ==> (dets[i].objectness != 0.0 <==> i < total))
            && (forall i :: total <= i < dets.Length ==> dets[i] in old(dets[..]))
            && AllFrom(dets[..total], origin, classes)
            && forall k :: 0 <= k < classes ==> ClassDone(dets[..total], origin, classes, k, thresh)
  {
    ghost var start, origin := dets[..], Origin(dets[..]);
    total := Partition(dets);
    ghost var mid := dets[..];
    ghost var ids := Ids(dets[..total]);
    PartitionProgress(start, mid, total, classes, thresh);
    for k := 0 to classes
      invariant dets[total..] == mid[total..]
      invariant Progress(dets[..total], ids, origin, classes, k, thresh)
    {
      DoClass(dets, total, k, thresh, ids, origin, classes);
    }
    Finish(start, mid, dets[..], total, classes, thresh);
  }

  lemma PartitionProgress(start: seq<Detection>, mid: seq<Detection>, total: nat, classes: nat, thresh: real)
    requires multiset(start) == multiset(mid) && DistinctIds(start) && total <= |mid|
    requires forall i :: 0 <= i < |start| ==> |start[i].prob| == classes
    ensures Progress(mid[..total], Ids(mid[..total]), Origin(start), classes, 0, thresh)
    ensures Progress(mid, Ids(start), Origin(start), classes, 0, thresh)
    ensures forall i :: 0 <= i < |mid| ==> mid[i] in start
  {
    hide Progress;
    StartProgress(start, start, classes, thresh);
    PermutationProgress(start, mid, Ids(start), Origin(start), classes, 0, thresh);
    PermutationDistinct(start, mid);
    forall i | 0 <= i < |mid| ensures mid[i] in start { assert mid[i] in multiset(start); }
    StartProgress(mid[..total], start, classes, thresh);
  }

  /** Every detection of `t` has the identity of one of `s`. */
  lemma IdAmong(s: seq<Detection>, t: seq<Detection>, i: nat) returns (p: nat)
    requires Ids(t) == Ids(s) && i < |t|
    ensures p < |s| && s[p].id == t[i].id
  {
    assert t[i] in t && t[i].id in Ids(t);
    var d :| d in s && d.id == t[i].id;
    p :| 0 <= p < |s| && s[p] == d;
  }

  lemma IdsSplit(s: seq<Detection>, n: nat)
    requires n <= |s|
    ensures Ids(s) == Ids(s[..n]) + Ids(s[n..])
  {
    assert s == s[..n] + s[n..];
    forall d | d in s ensures d in s[..n] || d in s[n..] {}
  }

  lemma Finish(start: seq<Detection>, mid: seq<Detection>, end: seq<Detection>, total: nat, classes: nat, thresh: real)
    requires total <= |mid| == |end| && end[total..] == mid[total..]
    requires forall i :: 0 <= i < |mid| ==> mid[i] in start
    requires Progress(mid, Ids(start), Origin(start), classes, 0, thresh)
    requires Progress(end[..total], Ids(mid[..total]), Origin(start), classes, classes, thresh)
    requires forall i :: 0 <= i < |mid| ==> (mid[i].objectness != 0.0 <==> i < total)
    ensures AllFrom(end, Origin(start), classes) && DistinctIds(end) && Ids(end) == Ids(start)
    ensures forall i :: 0 <= i < |end| ==> (end[i].objectness != 0.0 <==> i < total)
    ensures forall i :: total <= i < |end| ==> end[i] in start
    ensures AllFrom(end[..total], Origin(start), classes)
    ensures forall k :: 0 <= k < classes ==> ClassDone(end[..total], Origin(start), classes, k, thresh)
  {
    hide ClassDone, Untouched, Ids;
    var origin := Origin(start);
    forall i | total <= i < |end| ensures end[i] == mid[i] {
      assert end[total..][i - total] == mid[total..][i - total];
    }
    forall i | 0 <= i < total
      ensures IsFrom(end[i], origin, classes) && end[i].objectness != 0.0
      ensures forall j :: total <= j < |end| ==> end[i].id != end[j].id
    {
      assert end[..total][i] == end[i] && IsFrom(end[..total][i], origin, classes);
      var p := IdAmong(mid[..total], end[..total], i);
      assert IsFrom(mid[p], origin, classes);
    }
    forall i | total <= i < |end| ensures IsFrom(end[i], origin, classes) { assert IsFrom(mid[i], origin, classes); }
    forall i, j | 0 <= i < j < |end| ensures end[i].id != end[j].id {
      if j < total { assert end[..total][i].id != end[..total][j].id; }
    }
    IdsSplit(end, total);
    IdsSplit(mid, total);
  }
}
