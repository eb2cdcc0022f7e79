/**
 Non-maximum suppression by objectness: one sort and one pass, in which the weaker
 of two overlapping detections loses its objectness and all its probabilities.
 */
module NmsObj {
  import opened Nms

  function Killed(d: Detection): Detection {
    d.(objectness := 0.0, prob := seq(|d.prob|, _ => 0.0))
  }

  /** A surviving earlier detection, below place `n`, overlaps the one at `j`. */
  /** What is killed keeps its box and loses everything else. */
  lemma KilledIsNothing(d: Detection, k: nat)
    requires k < |d.prob|
    ensures Killed(d).objectness == 0.0 && |Killed(d).prob| == |d.prob| && Killed(d).prob[k] == 0.0
    ensures Killed(d).bbox == d.bbox && Killed(d).id == d.id
  {
  }

  predicate Beaten(s: seq<Detection>, thresh: real, n: nat, j: nat)
    requires j < |s|
  {
    exists i :: 0 <= i < j && i < n && s[i].objectness != 0.0 && Exceeds(s[i].bbox, s[j].bbox, thresh)
  }

  predicate Decided(before: seq<Detection>, after: seq<Detection>, thresh: real, n: nat, j: nat)
    requires j < |before| == |after|
  {
    after[j] == if Beaten(after, thresh, n, j) then Killed(before[j]) else before[j]
  }

  predicate AllDecided(before: seq<Detection>, after: seq<Detection>, thresh: real, n: nat) {
    |before| == |after| && forall j :: 0 <= j < |before| ==> Decided(before, after, thresh, n, j)
  }

  /** Detection `j` once the one at `n` has been compared with it. */
  function Compared(s: seq<Detection>, thresh: real, n: nat, j: nat): Detection
    requires n < |s| && j < |s|
  {
    if s[n].objectness != 0.0 && j > n && s[j].objectness != 0.0 && Exceeds(s[n].bbox, s[j].bbox, thresh)
    then Killed(s[j]) else s[j]
  }

  predicate AllHaveObjectness(s: seq<Detection>) {
    forall i :: 0 <= i < |s| ==> s[i].objectness != 0.0
  }

  /** One more detection has been compared with all later ones. */
  lemma DecideNext(before: seq<Detection>, s: seq<Detection>, after: seq<Detection>, thresh: real, n: nat)
    requires n < |s| == |after| && AllDecided(before, s, thresh, n) && AllHaveObjectness(before)
    requires forall j :: 0 <= j < |s| ==> after[j] == Compared(s, thresh, n, j)
    ensures AllDecided(before, after, thresh, n + 1)
  {
    hide Exceeds;
    var m := n + 1;
    assert after[n] == s[n];
    forall j | 0 <= j < |s| ensures Decided(before, after, thresh, m, j) {
      assert Decided(before, s, thresh, n, j);
      assert after[j].bbox == s[j].bbox;
      if Beaten(s, thresh, n, j) {
        var i :| 0 <= i < j && i < n && s[i].objectness != 0.0 && Exceeds(s[i].bbox, s[j].bbox, thresh);
        assert after[i] == s[i];
        assert Beaten(after, thresh, m, j);
      } else if Beaten(after, thresh, m, j) {
        var i :| 0 <= i < j && i < m && after[i].objectness != 0.0 && Exceeds(after[i].bbox, after[j].bbox, thresh);
        assert after[i] == s[i];
      }
    }
  }

  /** Kills every later detection that overlaps the one at `i`. */
  method SuppressAfter(dets: array<Detection>, total: nat, thresh: real, i: nat)
    requires i < total <= dets.Length && dets[i].objectness != 0.0
    modifies dets
    ensures dets[total..] == old(dets[total..])
    ensures forall j :: 0 <= j < total ==> dets[j] == Compared(old(dets[..total]), thresh, i, j)
  {
    ghost var s := dets[..total];
    var a := dets[i].bbox;
    for j := i + 1 to total
      invariant dets[total..] == old(dets[total..])
      invariant forall q :: 0 <= q < total ==> dets[q] == if q < j then Compared(s, thresh, i, q) else s[q]
    {
      if dets[j].objectness != 0.0 && Exceeds(a, dets[j].bbox, thresh) {
        dets[j] := Killed(dets[j]);
      }
    }
  }

  method Suppress(dets: array<Detection>, total: nat, thresh: real)
    requires total <= dets.Length && AllHaveObjectness(dets[..total])
    modifies dets
    ensures dets[total..] == old(dets[total..])
    ensures AllDecided(old(dets[..total]), dets[..total], thresh, total)
  {
    assert AllDecided(old(dets[..total]), dets[..total], thresh, 0);
    for i := 0 to total
      invariant dets[total..] == old(dets[total..])
      invariant AllDecided(old(dets[..total]), dets[..total], thresh, i)
    {
      hide AllDecided, Exceeds;
      ghost var s := dets[..total];
      if dets[i].objectness != 0.0 {
        SuppressAfter(dets, total, thresh, i);
      }
      DecideNext(old(dets[..total]), s, dets[..total], thresh, i);
    }
  }

  // ----- the whole of it

  /** As at the start, or killed by a survivor of at least its objectness that it overlaps. */
  ghost predicate Justified(s: seq<Detection>, origin: map<nat, Detection>, thresh: real, j: nat)
    requires j < |s|
  {
    && s[j].id in origin && s[j].bbox == origin[s[j].id].bbox
    && (s[j] == origin[s[j].id].(sortClass := -1)
        || (s[j] == Killed(origin[s[j].id]).(sortClass := -1)
            && exists i :: 0 <= i < |s| && KilledBy(s, origin, thresh, j, i)))
  }

  ghost predicate KilledBy(s: seq<Detection>, origin: map<nat, Detection>, thresh: real, j: nat, i: nat)
    requires j < |s| && i < |s|
  {
    && s[j].id in origin && s[i].objectness != 0.0 && s[i].objectness >= origin[s[j].id].objectness
    && Exceeds(s[i].bbox, s[j].bbox, thresh)
  }

  /** Two survivors do not overlap. */
  predicate Compatible(s: seq<Detection>, thresh: real, i: nat, j: nat)
    requires i < |s| && j < |s|
  {
    s[i].objectness != 0.0 && s[j].objectness != 0.0 ==> !Exceeds(s[i].bbox, s[j].bbox, thresh)
  }

  /** Every detection is as in `origin`, but for the class set for sorting. */
  predicate FromOrigin(s: seq<Detection>, origin: map<nat, Detection>) {
    forall i :: 0 <= i < |s| ==> s[i].id in origin && s[i] == origin[s[i].id].(sortClass := -1)
  }

  lemma SuppressJustified(before: seq<Detection>, after: seq<Detection>, origin: map<nat, Detection>, thresh: real)
    requires AllDecided(before, after, thresh, |before|) && Sorted(before, -1) && FromOrigin(before, origin)
    ensures forall j :: 0 <= j < |after| ==> Justified(after, origin, thresh, j)
    ensures forall i, j :: 0 <= i < |after| && 0 <= j < |after| && i != j ==> Compatible(after, thresh, i, j)
  {
    hide Exceeds;
    var n := |before|;
    forall j | 0 <= j < n ensures Justified(after, origin, thresh, j) {
      assert Decided(before, after, thresh, n, j);
      if Beaten(after, thresh, n, j) {
        var i :| 0 <= i < j && i < n && after[i].objectness != 0.0 && Exceeds(after[i].bbox, after[j].bbox, thresh);
        assert Decided(before, after, thresh, n, i);
        assert SortKey(before[i], -1) >= SortKey(before[j], -1);
        assert KilledBy(after, origin, thresh, j, i);
      }
    }
    forall i, j | 0 <= i < n && 0 <= j < n && i != j ensures Compatible(after, thresh, i, j) {
      assert Decided(before, after, thresh, n, i) && Decided(before, after, thresh, n, j);
      ExceedsSymmetric(after[i].bbox, after[j].bbox, thresh);
    }
  }

  lemma PermutedFrom(s: seq<Detection>, t: seq<Detection>, origin: map<nat, Detection>)
    requires multiset(s) == multiset(t) && FromOrigin(s, origin)
    ensures FromOrigin(t, origin)
  {
    forall i | 0 <= i < |t| ensures t[i] in s { assert t[i] in multiset(s); }
  }

  lemma PermIds(s: seq<Detection>, t: seq<Detection>)
    requires multiset(s) == multiset(t)
    ensures Ids(s) == Ids(t)
  {
    forall d | d in s ensures d in t { assert d in multiset(t); }
    forall d | d in t ensures d in s { assert d in multiset(s); }
  }

  /** Partitioning keeps every detection as it was. */
  lemma Partitioned(start: seq<Detection>, mid: seq<Detection>)
    requires multiset(start) == multiset(mid) && DistinctIds(start)
    ensures DistinctIds(mid) && Ids(mid) == Ids(start) && |mid| == |start|
    ensures forall i :: 0 <= i < |mid| ==>
              mid[i] in start && mid[i].id in Origin(start) && Origin(start)[mid[i].id] == mid[i]
  {
    PermutationDistinct(start, mid);
    PermIds(start, mid);
    forall i | 0 <= i < |mid|
      ensures mid[i] in start && mid[i].id in Origin(start) && Origin(start)[mid[i].id] == mid[i]
    {
      assert mid[i] in multiset(start);
      var j :| 0 <= j < |start| && start[j] == mid[i];
      OriginAt(start, j);
    }
  }

  /** Setting the class and sorting permutes the first detections. */
  lemma SortedFrom(s0: seq<Detection>, s1: seq<Detection>, s2: seq<Detection>, origin: map<nat, Detection>)
    requires |s1| == |s0| && forall i :: 0 <= i < |s0| ==> s1[i] == s0[i].(sortClass := -1)
    requires multiset(s1) == multiset(s2) && DistinctIds(s0)
    requires forall i :: 0 <= i < |s0| ==> s0[i].objectness != 0.0 && s0[i].id in origin && origin[s0[i].id] == s0[i]
    ensures |s2| == |s0| && DistinctIds(s2) && Ids(s2) == Ids(s0) && FromOrigin(s2, origin) && AllHaveObjectness(s2)
  {
    SameIds(s0, s1);
    PermutationDistinct(s1, s2);
    PermIds(s1, s2);
    PermutedFrom(s1, s2, origin);
    forall i | 0 <= i < |s2| ensures s2[i].objectness != 0.0 { assert s2[i] in multiset(s1); }
  }

  lemma DecidedIds(before: seq<Detection>, after: seq<Detection>, thresh: real)
    requires AllDecided(before, after, thresh, |before|)
    ensures |after| == |before| && forall i :: 0 <= i < |after| ==> after[i].id == before[i].id
  {
    hide Beaten;
    forall i | 0 <= i < |after| ensures after[i].id == before[i].id {
      assert Decided(before, after, thresh, |before|, i);
    }
  }

  /** Changing the first detections among themselves keeps all identities. */
  lemma EndIds(mid: seq<Detection>, end: seq<Detection>, total: nat)
    requires total <= |mid| == |end| && end[total..] == mid[total..] && DistinctIds(mid)
    requires DistinctIds(end[..total]) && Ids(end[..total]) == Ids(mid[..total])
    ensures DistinctIds(end) && Ids(end) == Ids(mid)
    ensures forall i :: total <= i < |end| ==> end[i] == mid[i]
  {
    forall i | total <= i < |end| ensures end[i] == mid[i] {
      assert end[total..][i - total] == mid[total..][i - total];
    }
    forall i, j | 0 <= i < j < |end| ensures end[i].id != end[j].id {
      if i < total {
        if j < total {
          assert end[..total][i].id != end[..total][j].id;
        } else {
          var p := IdAmong(mid[..total], end[..total], i);
        }
      }
    }
    IdsSplit(end, total);
    IdsSplit(mid, total);
  }

  /**
   The first `total` detections are those that had objectness; among them
   suppression is complete and justified, and the others are unchanged.
   */
  method DoNmsObj(dets: array<Detection>, thresh: real) returns (total: nat)
    requires DistinctIds(dets[..])
    modifies dets
    ensures total <= dets.Length
    ensures var origin, s := Origin(old(dets[..])), dets[..total];
            && (forall j :: 0 <= j < total ==> Justified(s, origin, thresh, j) && origin[s[j].id].objectness != 0.0)
            && (forall i, j :: 0 <= i < total && 0 <= j < total && i != j ==> Compatible(s, thresh, i, j))
    ensures forall i :: total <= i < dets.Length ==> dets[i] in old(dets[..]) && dets[i].objectness == 0.0
    ensures DistinctIds(dets[..]) && Ids(dets[..]) == Ids(old(dets[..]))
  {
    hide Exceeds, Sorted, SortKey, Ids, DistinctIds, FromOrigin, AllHaveObjectness, AllDecided, Justified, Compatible,
         Origin;
    ghost var start, origin := dets[..], Origin(dets[..]);
    total := Partition(dets);
    ghost var mid := dets[..];
    Partitioned(start, mid);
    PrefixDistinct(mid, total);
    SetClass(dets, total, -1);
    ghost var s1 := dets[..total];
    QSort(dets, total, -1);
    ghost var s2 := dets[..total];
    SortedFrom(mid[..total], s1, s2, origin);
    Suppress(dets, total, thresh);
    SuppressJustified(s2, dets[..total], origin, thresh);
    DecidedIds(s2, dets[..total], thresh);
    SameIds(s2, dets[..total]);
    EndIds(mid, dets[..], total);
    forall j | 0 <= j < total ensures origin[dets[..total][j].id].objectness != 0.0 {
      HadObjectness(s2, origin, j);
    }
  }

  lemma PrefixDistinct(s: seq<Detection>, total: nat)
    requires DistinctIds(s) && total <= |s|
    ensures DistinctIds(s[..total])
  {
  }

  lemma HadObjectness(s: seq<Detection>, origin: map<nat, Detection>, j: nat)
    requires j < |s| && FromOrigin(s, origin) && AllHaveObjectness(s)
    ensures s[j].id in origin && origin[s[j].id].objectness != 0.0
  {
  }
}
