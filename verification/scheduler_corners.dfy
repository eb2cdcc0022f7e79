/**
 Runs of the daemon after which it places no request although an OS is there for it.
 */
module SchedulerCorners {
  import opened Basics
  import opened Bits
  import opened BitHandler
  import opened Registry
  import opened WcetList
  import opened Scheduler

  /** A daemon without OSes. */
  method Start() returns (nos: array<ServerNpuOS?>, nnpos: NnPos)
    ensures nos.Length == MAX_NOS_SUPPORT && fresh(nos) && Dense(nos[..], 0) && Counted(nos[..], 0)
    ensures nnpos.Valid() && fresh(nnpos.Repr) && nos !in nnpos.Repr
    ensures forall o :: 0 <= o < MAX_NOS_SUPPORT ==> nnpos.SlotOf(o) == Slot({}, false)
  {
    nnpos := new NnPos();
    nos := new ServerNpuOS?[MAX_NOS_SUPPORT](_ => null);
    NumberDense(nos[..], 0, MAX_NOS_SUPPORT);
  }

  /** Partition 0 is loaded on an OS. */
  method LoadOn(nnpos: NnPos, osid: nat)
    requires nnpos.Valid() && osid < MAX_NOS_SUPPORT
    requires forall o :: 0 <= o < MAX_NOS_SUPPORT ==> nnpos.SlotOf(o) == Slot({}, false)
    modifies nnpos.Repr
    ensures nnpos.Valid() && fresh(nnpos.Repr - old(nnpos.Repr))
    ensures forall o, num: nat, affinity: uint32 :: Eligible(nnpos, num, 0, 0, affinity, o) <==>
              o == osid && osid < num && Bit(affinity, osid)
  {
    nnpos.SetNosBit(osid, 0, 0);
    assert 0 in Range(0, 0);
    forall o, num: nat, affinity: uint32
      ensures Eligible(nnpos, num, 0, 0, affinity, o) <==> o == osid && osid < num && Bit(affinity, osid)
    {
      if 0 <= o < MAX_NOS_SUPPORT {
        var s := nnpos.SlotOf(o);
        assert s == if o == osid then Loaded(Slot({}, false), Range(0, 0)) else Slot({}, false);
        assert nnpos.On(o) == s.parts && (nnpos.nosbit[o] != null <==> s.present);
      }
    }
  }

  /**
   An OS connects with id 1 before any other. Whatever is loaded on it, it gets no
   request that all OSes may serve, and the next OS is refused an index of its own.
   */
  method FirstTakesOne() returns (nos: array<ServerNpuOS?>, nnpos: NnPos, num: nat, placed: int, next: Connection)
    ensures nos.Length == MAX_NOS_SUPPORT && nos[1] != null && nos[1].ntasks == 0 && num == 1
    ensures nnpos.Valid() && Eligible(nnpos, 2, 0, 0, 2, 1)
    ensures placed == -1 && next == Refused
  {
    nos, nnpos := Start();
    var c;
    c, num := Connect(nos, 0, 1);
    LoadOn(nnpos, 1);
    BitPow2(1, 1);
    placed := Mnt(nnpos, nos, num, 0, 0, 2);
    next, num := Connect(nos, num, -1);
  }

  /** An OS whose expected time or number of tasks is the bound of the search is not found, although it is alone. */
  method AloneAtTheBound(dblMax: real) returns (nos: array<ServerNpuOS?>, nnpos: NnPos, byTime: int, byTasks: int)
    ensures nos.Length == MAX_NOS_SUPPORT && Dense(nos[..], 1) && nnpos.Valid() && Eligible(nnpos, 1, 0, 0, 1, 0)
    ensures byTime == -1 && byTasks == -1
  {
    nos, nnpos := Start();
    var c, num := Connect(nos, 0, -1);
    LoadOn(nnpos, 0);
    BitPow2(0, 0);
    nos[0].ewt, nos[0].ntasks := dblMax, INT_MAX;
    byTime := Mwct(nnpos, nos, num, 0, 0, 0, 1, dblMax);
    byTasks := Mnt(nnpos, nos, num, 0, 0, 1);
  }
}
