/**
 The daemon's registry for one neural network: which of its partitions sit on
 which NPU OS. A 32-bit mask and 32 pointers to bit strings refine a map from OS
 ids to sets of partition numbers.
 */
module Registry {
  import opened Bits
  import opened BitHandler

  const MAX_NOS_SUPPORT := 32

  /** The partitions of one network on one OS, and whether either side keeps a record of them. */
  datatype Slot = Slot(parts: set<nat>, present: bool)

  ghost function Loaded(s: Slot, range: set<nat>): Slot {
    Slot(s.parts + range, true)
  }

  ghost function Unloaded(s: Slot, range: set<nat>): Slot {
    Slot(s.parts - range, s.parts - range != {})
  }

  class NosBit {
    const bit: array<uint64>

    constructor ()
      ensures fresh(bit) && bit.Length == BIT_STRING_NUM && Parts(bit[..]) == {}
    {
      bit := new uint64[BIT_STRING_NUM](_ => 0);
      new;
      PartsZero(bit[..]);
    }
  }

  /** `1 << osid` */
  lemma OsMask(osid: nat)
    requires osid < MAX_NOS_SUPPORT
    ensures Pow2(osid) < 0x1_0000_0000 == Pow2(MAX_NOS_SUPPORT)
  {
    var n: nat := MAX_NOS_SUPPORT;
    Pow2Mono(osid + 1, n);
    Pow2Values(n);
  }

  lemma TestMask(x: uint32, osid: nat)
    requires osid < MAX_NOS_SUPPORT
    ensures And(x, Pow2(osid)) != 0 <==> Bit(x, osid)
  {
    BitAnd(x, Pow2(osid), osid);
    BitPow2(osid, osid);
    BitZero(osid);
    AndBound(x, Pow2(osid));
    if And(x, Pow2(osid)) != 0 {
      OsMask(osid);
      var n: nat := MAX_NOS_SUPPORT;
      Pow2Values(n);
      var i := NonzeroHasBit(And(x, Pow2(osid)), n);
      BitAnd(x, Pow2(osid), i);
      BitPow2(osid, i);
    }
  }

  class NnPos {
    var os_bit: uint32
    const nosbit: array<NosBit?>
    ghost var Repr: set<object>

    /** The mask tells which pointers are set, and no two bit strings share memory. */
    ghost predicate Valid()
      reads this, Repr
    {
      && this in Repr && nosbit in Repr && nosbit.Length == MAX_NOS_SUPPORT
      && (forall o :: 0 <= o < MAX_NOS_SUPPORT ==> SlotValid(o))
      && (forall o, q :: 0 <= o < q < MAX_NOS_SUPPORT && nosbit[o] != null && nosbit[q] != null ==>
            nosbit[o].bit != nosbit[q].bit)
    }

    ghost predicate SlotValid(o: nat)
      requires o < MAX_NOS_SUPPORT == nosbit.Length
      reads this, nosbit
    {
      && (Bit(os_bit, o) <==> nosbit[o] != null)
      && (nosbit[o] != null ==> nosbit[o].bit in Repr && nosbit[o].bit.Length == BIT_STRING_NUM)
    }

    /** The partitions registered for `o`: the state that the registry stands for. */
    ghost function On(o: nat): (r: set<nat>)
      requires o < MAX_NOS_SUPPORT && Valid()
      reads this, Repr
    {
      assert SlotValid(o);
      if nosbit[o] == null then {} else Parts(nosbit[o].bit[..])
    }

    ghost function SlotOf(o: nat): Slot
      requires o < MAX_NOS_SUPPORT && Valid()
      reads this, Repr
    {
      Slot(On(o), nosbit[o] != null)
    }

    /** Every pointer that is set points to a non-empty bit string. */
    ghost predicate NoEmpty()
      requires Valid()
      reads this, Repr
    {
      forall o :: 0 <= o < MAX_NOS_SUPPORT ==> (nosbit[o] != null ==> On(o) != {})
    }

    constructor ()
      ensures Valid() && fresh(Repr) && NoEmpty()
      ensures forall o :: 0 <= o < MAX_NOS_SUPPORT ==> On(o) == {}
    {
      os_bit := 0;
      nosbit := new NosBit?[MAX_NOS_SUPPORT](_ => null);
      Repr := {this, nosbit};
      new;
      forall o: nat ensures !Bit(os_bit, o) { BitZero(o); }
    }

    /** Sets the mask bit of an OS and gives it a bit string if it has none. */
    method Claim(osid: nat) returns (n: NosBit)
      requires Valid() && osid < MAX_NOS_SUPPORT
      modifies this, nosbit
      ensures Valid() && fresh(Repr - old(Repr)) && old(Repr) <= Repr
      ensures nosbit[osid] == n && (forall o :: 0 <= o < MAX_NOS_SUPPORT && o != osid ==> nosbit[o] == old(nosbit[o]))
      ensures forall o :: 0 <= o < MAX_NOS_SUPPORT ==> On(o) == old(On(o))
    {
      hide Bit, Or, Parts, Pow2;
      assert SlotValid(osid);
      os_bit := SetMask(osid);
      if nosbit[osid] == null {
        n := new NosBit();
        nosbit[osid] := n;
        Repr := Repr + {n.bit};
      } else {
        n := nosbit[osid];
      }
      forall o | 0 <= o < MAX_NOS_SUPPORT ensures SlotValid(o) { assert old(SlotValid(o)); }
    }

    /** `os_bit | (1 << osid)` */
    method SetMask(osid: nat) returns (mask: uint32)
      requires osid < MAX_NOS_SUPPORT
      ensures forall o: nat :: Bit(mask, o) <==> Bit(os_bit, o) || o == osid
    {
      hide Bit, Or, Pow2;
      OsMask(osid);
      Bits.SetBit(os_bit, osid, MAX_NOS_SUPPORT);
      mask := Or(os_bit, Pow2(osid));
      forall o: nat ensures Bit(mask, o) <==> Bit(os_bit, o) || o == osid {
        BitOr(os_bit, Pow2(osid), o);
        BitPow2(osid, o);
      }
    }

    /** Registers partitions; an empty range still creates the bit string. */
    method SetNosBit(osid: nat, start: int, delta: int)
      requires Valid() && osid < MAX_NOS_SUPPORT && 0 <= start && start + delta < BIT_MAX_NUM
      modifies Repr
      ensures Valid() && fresh(Repr - old(Repr))
      ensures forall o :: 0 <= o < MAX_NOS_SUPPORT ==>
                SlotOf(o) == if o == osid then Loaded(old(SlotOf(o)), Range(start, start + delta)) else old(SlotOf(o))
      ensures old(NoEmpty()) ==> (NoEmpty() <==> delta >= 0 || old(On(osid)) != {})
    {
      hide Bit, Parts;
      var n := Claim(osid);
      label claimed:
      assert SlotValid(osid);
      var bs := new uint64[BIT_STRING_NUM](_ => 0);
      PartsZero(bs[..]);
      ConvertToBitstring(start, start + delta, bs);
      BitHandler.SetBit(n.bit, bs);
      forall o | 0 <= o < MAX_NOS_SUPPORT ensures SlotValid(o) { assert old@claimed(SlotValid(o)); }
      if delta >= 0 { assert start in On(osid); }
    }

    /** Clears the mask bit of an OS and forgets its bit string. */
    method Release(osid: nat)
      requires Valid() && osid < MAX_NOS_SUPPORT && On(osid) == {}
      modifies this, nosbit
      ensures Valid() && Repr == old(Repr)
      ensures forall o :: 0 <= o < MAX_NOS_SUPPORT ==> nosbit[o] == if o == osid then null else old(nosbit[o])
      ensures forall o :: 0 <= o < MAX_NOS_SUPPORT ==> On(o) == old(On(o))
    {
      hide Bit, AndNot, Parts;
      Bits.ClearBit(os_bit, osid);
      os_bit := AndNot(os_bit, Pow2(osid));
      nosbit[osid] := null;
      forall o | 0 <= o < MAX_NOS_SUPPORT ensures SlotValid(o) { assert old(SlotValid(o)); }
    }

    /** Unregisters partitions; `false` stands for the source's exit with "nosbit is empty". */
    method ClrNosBit(osid: nat, start: int, delta: int) returns (ok: bool)
      requires Valid() && osid < MAX_NOS_SUPPORT && 0 <= start && start + delta < BIT_MAX_NUM
      modifies Repr
      ensures Valid() && fresh(Repr - old(Repr))
      ensures ok <==> old(nosbit[osid]) != null
      ensures forall o :: 0 <= o < MAX_NOS_SUPPORT ==>
                SlotOf(o) == if ok && o == osid
                             then Unloaded(old(SlotOf(o)), Range(start, start + delta)) else old(SlotOf(o))
      ensures old(NoEmpty()) ==> NoEmpty() && (ok <==> old(On(osid)) != {})
    {
      hide Bit, Parts;
      assert SlotValid(osid);
      var n := nosbit[osid];
      ok := n != null;
      if ok {
        var bs := new uint64[BIT_STRING_NUM](_ => 0);
        PartsZero(bs[..]);
        ConvertToBitstring(start, start + delta, bs);
        ClrBit(n.bit, bs);
        forall o | 0 <= o < MAX_NOS_SUPPORT ensures SlotValid(o) { assert old(SlotValid(o)); }
        var zero := IsAllbitZero(n.bit);
        if zero {
          Release(osid);
        }
      }
    }

    /** Overlap. */
    method IsNosBit(osid: nat, start: int, delta: int) returns (r: bool)
      requires Valid() && osid < MAX_NOS_SUPPORT && 0 <= start && start + delta < BIT_MAX_NUM
      ensures r <==> On(osid) * Range(start, start + delta) != {}
    {
      TestMask(os_bit, osid);
      assert SlotValid(osid);
      r := false;
      if And(os_bit, Pow2(osid)) != 0 {
        if nosbit[osid] != null {
          var bs := new uint64[BIT_STRING_NUM](_ => 0);
          PartsZero(bs[..]);
          ConvertToBitstring(start, start + delta, bs);
          r := IsPartbitSet(nosbit[osid].bit, bs);
        }
      }
    }

    /** Inclusion. */
    method IsNosBitMatch(osid: nat, start: int, delta: int) returns (r: bool)
      requires Valid() && osid < MAX_NOS_SUPPORT && 0 <= start && start + delta < BIT_MAX_NUM
      ensures r <==> nosbit[osid] != null && Range(start, start + delta) <= On(osid)
      ensures delta >= 0 ==> (r <==> Range(start, start + delta) <= On(osid))
    {
      TestMask(os_bit, osid);
      assert SlotValid(osid);
      assert delta >= 0 ==> start in Range(start, start + delta);
      r := false;
      if And(os_bit, Pow2(osid)) != 0 {
        if nosbit[osid] != null {
          var bs := new uint64[BIT_STRING_NUM](_ => 0);
          PartsZero(bs[..]);
          ConvertToBitstring(start, start + delta, bs);
          r := IsAllbitSet(nosbit[osid].bit, bs);
        }
      }
    }

    /** The mask of the OSes that hold the whole range. */
    method MaskNosBitMatch(start: int, delta: int) returns (mask: uint32)
      requires Valid() && 0 <= start && start + delta < BIT_MAX_NUM
      ensures forall o :: 0 <= o < MAX_NOS_SUPPORT ==>
                (Bit(mask, o) <==> nosbit[o] != null && Range(start, start + delta) <= On(o))
    {
      hide Bit, Parts, And, AndNot;
      mask := os_bit;
      forall o | 0 <= o < MAX_NOS_SUPPORT ensures Bit(mask, o) <==> nosbit[o] != null { assert SlotValid(o); }
      var bs := new uint64[BIT_STRING_NUM](_ => 0);
      PartsZero(bs[..]);
      ConvertToBitstring(start, start + delta, bs);
      for osid := 0 to MAX_NOS_SUPPORT
        invariant Parts(bs[..]) == Range(start, start + delta)
        invariant forall o :: 0 <= o < MAX_NOS_SUPPORT ==>
                    (Bit(mask, o) <==> nosbit[o] != null && (o < osid ==> Range(start, start + delta) <= On(o)))
      {
        TestMask(os_bit, osid);
        assert SlotValid(osid);
        if And(os_bit, Pow2(osid)) != 0 {
          if nosbit[osid] != null {
            var r := IsAllbitSet(nosbit[osid].bit, bs);
            if !r {
              Bits.ClearBit(mask, osid);
              mask := AndNot(mask, Pow2(osid));
            }
          }
        }
      }
    }
  }
}
