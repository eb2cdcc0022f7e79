/**
 Sets of partition numbers below 128 as two 64-bit words, changed in place.
 */
module BitHandler {
  import opened Bits

  const BIT_UNIT := 64
  const BIT_STRING_NUM := 2
  const BIT_MAX_NUM := 128

  /** The partitions whose bit is set. */
  ghost function Parts(words: seq<uint64>): (r: set<nat>)
    requires |words| == BIT_STRING_NUM
    ensures forall i: nat :: i in r <==> i < BIT_MAX_NUM && HasPart(words, i)
  {
    set i: nat | i < BIT_MAX_NUM && HasPart(words, i)
  }

  predicate HasPart(words: seq<uint64>, i: nat)
    requires |words| == BIT_STRING_NUM && i < BIT_MAX_NUM
  {
    Bit(words[i / BIT_UNIT], i % BIT_UNIT)
  }

  /** The partitions from `start` to `end`, both included. */
  ghost function Range(start: int, end: int): (r: set<nat>)
    ensures forall i: nat :: i in r <==> start <= i <= end
  {
    set i: nat | i <= end && AtLeast(i, start)
  }

  predicate AtLeast(i: nat, start: int) {
    start <= i
  }

  lemma WordOr(x: uint64, y: uint64)
    ensures Or(x, y) < 0x1_0000_0000_0000_0000
  {
    Pow2_64(BIT_UNIT);
    OrBound(x, y, BIT_UNIT);
  }

  lemma Pow2_64(n: nat)
    requires n == 64
    ensures Pow2(n) == 0x1_0000_0000_0000_0000
  {
    Pow2Double(n / 2);
    Pow2Values(n / 2);
  }

  lemma Pow2Word(q: nat)
    requires q < BIT_UNIT
    ensures Pow2(q) < 0x1_0000_0000_0000_0000
  {
    Pow2_64(BIT_UNIT);
    Pow2Mono(q, 63);
    assert Pow2(BIT_UNIT) == 2 * Pow2(BIT_UNIT - 1);
  }

  /** Or-ing in the bit of partition `i` adds `i`. */
  lemma AddPart(words: seq<uint64>, after: seq<uint64>, i: nat)
    requires |words| == BIT_STRING_NUM && i < BIT_MAX_NUM
    requires |after| == BIT_STRING_NUM && forall k :: 0 <= k < BIT_STRING_NUM ==>
             after[k] == if k == i / BIT_UNIT then Or(words[k], Pow2(i % BIT_UNIT)) else words[k]
    ensures Parts(after) == Parts(words) + {i}
  {
    forall k: nat | k < BIT_MAX_NUM ensures HasPart(after, k) <==> HasPart(words, k) || k == i {
      if k / BIT_UNIT == i / BIT_UNIT {
        BitOr(words[i / BIT_UNIT], Pow2(i % BIT_UNIT), k % BIT_UNIT);
        BitPow2(i % BIT_UNIT, k % BIT_UNIT);
      }
    }
  }

  /** Sets the bits of the partitions from `start` to `end`; none if `end` is below `start`. */
  method ConvertToBitstring(start: int, end: int, bs: array<uint64>)
    requires bs.Length == BIT_STRING_NUM && 0 <= start && end < BIT_MAX_NUM
    modifies bs
    ensures Parts(bs[..]) == old(Parts(bs[..])) + Range(start, end)
    ensures forall i: nat :: i < 128 ==>
              (Bit(bs[i / 64], i % 64) <==> old(Bit(bs[i / 64], i % 64)) || start <= i <= end)
  {
    hide Bit, HasPart, Or, Pow2;
    ghost var all := bs[..];
    var i := start;
    while i <= end
      invariant start <= i && (i <= end + 1 || i == start)
      invariant Parts(bs[..]) == old(Parts(bs[..])) + Range(start, i - 1)
    {
      ghost var before := bs[..];
      var p, q := i / BIT_UNIT, i % BIT_UNIT;
      Pow2Word(q);
      WordOr(bs[p], Pow2(q));
      bs[p] := Or(bs[p], Pow2(q));
      AddPart(before, bs[..], i);
      i := i + 1;
    }
    forall i: nat | i < 128 ensures Bit(bs[i / 64], i % 64) <==> Bit(all[i / 64], i % 64) || start <= i <= end {
      PartIsBit(bs[..], i);
      PartIsBit(all, i);
    }
  }

  lemma PartIsBit(words: seq<uint64>, i: nat)
    requires |words| == BIT_STRING_NUM && i < BIT_MAX_NUM
    ensures i in Parts(words) <==> Bit(words[i / 64], i % 64)
  {
  }

  /** Every shift of the range stays within an `int`. */
  predicate ShiftsDefined(start: int, end: int) {
    forall i :: start <= i <= end ==> i % BIT_UNIT <= 30
  }

  /** That is so when the range is empty, or in one word and not beyond its bit 30. */
  lemma ShiftsDefinedIff(start: int, end: int)
    requires 0 <= start
    ensures ShiftsDefined(start, end) <==> end < start || (start / BIT_UNIT == end / BIT_UNIT && end % BIT_UNIT <= 30)
  {
    if start <= end && start / BIT_UNIT != end / BIT_UNIT {
      assert (start / BIT_UNIT * BIT_UNIT + 63) % BIT_UNIT == 63;
      assert start <= start / BIT_UNIT * BIT_UNIT + 63 <= end;
    }
  }

  /** Partition 31 alone is a range for which that is not so. */
  lemma Bit31Shifts()
    ensures !ShiftsDefined(31, 31)
  {
    ShiftsDefinedIff(31, 31);
  }

  /**
   The same as written: `1` is an `int`, and `defined` tells whether every shift of it
   is. The partitions are only then those of the range.
   */
  method ConvertAsWritten(start: int, end: int, bs: array<uint64>) returns (defined: bool)
    requires bs.Length == BIT_STRING_NUM && 0 <= start && end < BIT_MAX_NUM
    modifies bs
    ensures defined <==> ShiftsDefined(start, end)
    ensures defined ==> Parts(bs[..]) == old(Parts(bs[..])) + Range(start, end)
  {
    hide Bit, HasPart, Or, Pow2;
    defined := true;
    var i := start;
    while i <= end
      invariant start <= i && (i <= end + 1 || i == start)
      invariant ShiftsDefined(start, i - 1)
      invariant Parts(bs[..]) == old(Parts(bs[..])) + Range(start, i - 1)
    {
      ghost var before := bs[..];
      var p, q := i / BIT_UNIT, i % BIT_UNIT;
      if q > 30 { return false; }
      Pow2Word(q);
      WordOr(bs[p], Pow2(q));
      bs[p] := Or(bs[p], Pow2(q));
      AddPart(before, bs[..], i);
      i := i + 1;
    }
  }

  method SetBit(bs_t: array<uint64>, bs: array<uint64>)
    requires bs_t.Length == bs.Length == BIT_STRING_NUM
    modifies bs_t
    ensures Parts(bs_t[..]) == old(Parts(bs_t[..])) + old(Parts(bs[..]))
  {
    for i := 0 to BIT_STRING_NUM
      invariant forall k :: 0 <= k < BIT_STRING_NUM ==>
                bs_t[k] == if k < i then Or(old(bs_t[k]), old(bs[k])) else old(bs_t[k])
      invariant forall k :: i <= k < BIT_STRING_NUM ==> bs[k] == old(bs[k])
    {
      WordOr(bs_t[i], bs[i]);
      bs_t[i] := Or(bs_t[i], bs[i]);
    }
    OrIsUnion(old(bs_t[..]), old(bs[..]), bs_t[..]);
  }

  lemma OrIsUnion(t: seq<uint64>, s: seq<uint64>, r: seq<uint64>)
    requires |t| == |s| == |r| == BIT_STRING_NUM
    requires forall k :: 0 <= k < BIT_STRING_NUM ==> r[k] == Or(t[k], s[k])
    ensures Parts(r) == Parts(t) + Parts(s)
  {
    forall i: nat | i < BIT_MAX_NUM ensures HasPart(r, i) <==> HasPart(t, i) || HasPart(s, i) {
      BitOr(t[i / BIT_UNIT], s[i / BIT_UNIT], i % BIT_UNIT);
    }
  }

  method ClrBit(bs_t: array<uint64>, bs: array<uint64>)
    requires bs_t.Length == bs.Length == BIT_STRING_NUM
    modifies bs_t
    ensures Parts(bs_t[..]) == old(Parts(bs_t[..])) - old(Parts(bs[..]))
  {
    for i := 0 to BIT_STRING_NUM
      invariant forall k :: 0 <= k < BIT_STRING_NUM ==>
                bs_t[k] == if k < i then AndNot(old(bs_t[k]), old(bs[k])) else old(bs_t[k])
      invariant forall k :: i <= k < BIT_STRING_NUM ==> bs[k] == old(bs[k])
    {
      AndNotBound(bs_t[i], bs[i]);
      bs_t[i] := AndNot(bs_t[i], bs[i]);
    }
    AndNotIsDifference(old(bs_t[..]), old(bs[..]), bs_t[..]);
  }

  lemma AndNotIsDifference(t: seq<uint64>, s: seq<uint64>, r: seq<uint64>)
    requires |t| == |s| == |r| == BIT_STRING_NUM
    requires forall k :: 0 <= k < BIT_STRING_NUM ==> r[k] == AndNot(t[k], s[k])
    ensures Parts(r) == Parts(t) - Parts(s)
  {
    forall i: nat | i < BIT_MAX_NUM ensures HasPart(r, i) <==> HasPart(t, i) && !HasPart(s, i) {
      BitAndNot(t[i / BIT_UNIT], s[i / BIT_UNIT], i % BIT_UNIT);
    }
  }

  lemma AndIsIntersection(t: seq<uint64>, s: seq<uint64>, r: seq<uint64>)
    requires |t| == |s| == |r| == BIT_STRING_NUM
    requires forall k :: 0 <= k < BIT_STRING_NUM ==> r[k] == And(t[k], s[k])
    ensures Parts(r) == Parts(t) * Parts(s)
  {
    forall i: nat | i < BIT_MAX_NUM ensures HasPart(r, i) <==> HasPart(t, i) && HasPart(s, i) {
      BitAnd(t[i / BIT_UNIT], s[i / BIT_UNIT], i % BIT_UNIT);
    }
  }

  /** Equal sets of partitions have equal words. */
  lemma PartsExt(r: seq<uint64>, s: seq<uint64>)
    requires |r| == |s| == BIT_STRING_NUM
    ensures Parts(r) == Parts(s) <==> r == s
  {
    if Parts(r) == Parts(s) {
      Pow2_64(BIT_UNIT);
      forall k | 0 <= k < BIT_STRING_NUM ensures r[k] == s[k] {
        forall i | 0 <= i < BIT_UNIT ensures Bit(r[k], i) == Bit(s[k], i) {
          var p: nat := BIT_UNIT * k + i;
          assert p / BIT_UNIT == k && p % BIT_UNIT == i;
          assert p in Parts(r) <==> p in Parts(s);
        }
        BitExt(r[k], s[k], BIT_UNIT);
      }
    }
  }

  lemma PartsZero(r: seq<uint64>)
    requires |r| == BIT_STRING_NUM
    ensures Parts(r) == {} <==> r == [0, 0]
  {
    forall i: nat | i < BIT_MAX_NUM ensures !HasPart([0, 0], i) {
      BitZero(i % BIT_UNIT);
    }
    PartsExt(r, [0, 0]);
  }

  /** The counting loops below all compare word by word. */
  method IsPartbitSet(bs_t: array<uint64>, bs: array<uint64>) returns (r: bool)
    requires bs_t.Length == bs.Length == BIT_STRING_NUM
    ensures r <==> Parts(bs_t[..]) * Parts(bs[..]) != {}
  {
    var bs_r := new uint64[BIT_STRING_NUM](_ => 0);
    var count := 0;
    for i := 0 to BIT_STRING_NUM
      invariant forall k :: 0 <= k < i ==> bs_r[k] == And(bs_t[k], bs[k])
      invariant 0 <= count <= i && (count == 0 <==> forall k :: 0 <= k < i ==> bs_r[k] == 0)
    {
      AndBound(bs_t[i], bs[i]);
      bs_r[i] := And(bs_t[i], bs[i]);
      count := count + B2N(bs_r[i] > 0);
    }
    AndIsIntersection(bs_t[..], bs[..], bs_r[..]);
    PartsZero(bs_r[..]);
    return count > 0;
  }

  method IsAllbitSet(bs_t: array<uint64>, bs: array<uint64>) returns (r: bool)
    requires bs_t.Length == bs.Length == BIT_STRING_NUM
    ensures r <==> Parts(bs[..]) <= Parts(bs_t[..])
  {
    var bs_r := new uint64[BIT_STRING_NUM](_ => 0);
    var count := 0;
    for i := 0 to BIT_STRING_NUM
      invariant forall k :: 0 <= k < i ==> bs_r[k] == And(bs_t[k], bs[k])
      invariant 0 <= count <= i && (count == i <==> forall k :: 0 <= k < i ==> bs_r[k] == bs[k])
    {
      AndBound(bs_t[i], bs[i]);
      bs_r[i] := And(bs_t[i], bs[i]);
      count := count + B2N(bs_r[i] == bs[i]);
    }
    AndIsIntersection(bs_t[..], bs[..], bs_r[..]);
    PartsExt(bs_r[..], bs[..]);
    assert bs_r[..] == bs[..] <==> forall k :: 0 <= k < BIT_STRING_NUM ==> bs_r[k] == bs[k];
    assert Parts(bs[..]) <= Parts(bs_t[..]) <==> Parts(bs_t[..]) * Parts(bs[..]) == Parts(bs[..]);
    return count == BIT_STRING_NUM;
  }

  method IsAllbitClr(bs_t: array<uint64>, bs: array<uint64>) returns (r: bool)
    requires bs_t.Length == bs.Length == BIT_STRING_NUM
    ensures r <==> Parts(bs_t[..]) !! Parts(bs[..])
  {
    var bs_r := new uint64[BIT_STRING_NUM](_ => 0);
    var count := 0;
    for i := 0 to BIT_STRING_NUM
      invariant forall k :: 0 <= k < i ==> bs_r[k] == AndNot(bs[k], bs_t[k])
      invariant 0 <= count <= i && (count == i <==> forall k :: 0 <= k < i ==> bs_r[k] == bs[k])
    {
      AndNotBound(bs[i], bs_t[i]);
      bs_r[i] := AndNot(bs[i], bs_t[i]);
      count := count + B2N(bs_r[i] == bs[i]);
    }
    AndNotIsDifference(bs[..], bs_t[..], bs_r[..]);
    PartsExt(bs_r[..], bs[..]);
    assert bs_r[..] == bs[..] <==> forall k :: 0 <= k < BIT_STRING_NUM ==> bs_r[k] == bs[k];
    assert Parts(bs_t[..]) !! Parts(bs[..]) <==> Parts(bs[..]) - Parts(bs_t[..]) == Parts(bs[..]);
    return count == BIT_STRING_NUM;
  }

  method IsAllbitZero(bs_t: array<uint64>) returns (r: bool)
    requires bs_t.Length == BIT_STRING_NUM
    ensures r <==> Parts(bs_t[..]) == {}
  {
    var count := 0;
    for i := 0 to BIT_STRING_NUM
      invariant 0 <= count <= i && (count == i <==> forall k :: 0 <= k < i ==> bs_t[k] == 0)
    {
      count := count + B2N(bs_t[i] == 0);
    }
    PartsZero(bs_t[..]);
    return count == BIT_STRING_NUM;
  }
}
