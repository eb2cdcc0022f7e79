/**
 The load and unload tasks of an NPU OS, which change a network object's bit
 string and its `loaded` flag in place, and the daemon's handlers of the messages
 around them.
 */
module NpuTasks {
  import opened Basics
  import opened Bits
  import opened BitHandler
  import opened Registry

  /** A client asks to load or unload the partitions `start` to `start + delta`. */
  datatype Request = Request(load: bool, nnid: nat, osid: nat, start: nat, delta: int) {
    ghost function Wanted(): set<nat> {
      Range(start, start + delta)
    }

    predicate Valid() {
      osid < MAX_NOS_SUPPORT && start + delta < BIT_MAX_NUM
    }
  }

  /** What an OS makes of a request, and whether its echo is an OK. */
  ghost function RunOn(s: Slot, r: Request): (Slot, bool) {
    if r.load then
      if s.present && s.parts * r.Wanted() != {} then (s, false) else (Loaded(s, r.Wanted()), true)
    else
      if s.present then (Unloaded(s, r.Wanted()), true) else (s, false)
  }

  /** The daemon passes a request on: nothing of it is registered, respectively all of it is. */
  ghost predicate Accepts(s: Slot, r: Request) {
    if r.load then s.parts * r.Wanted() == {} else s.present && r.Wanted() <= s.parts
  }

  /** The daemon's record after an OK echo; none if it exits with "nosbit is empty". */
  ghost function Recorded(s: Slot, r: Request): Option<Slot> {
    if r.load then Some(Loaded(s, r.Wanted()))
    else if s.present then Some(Unloaded(s, r.Wanted()))
    else None
  }

  class NnObject {
    const bs: array<uint64>
    var loaded: bool

    ghost predicate Valid()
      reads this, bs
    {
      bs.Length == BIT_STRING_NUM && (!loaded ==> Parts(bs[..]) == {})
    }

    ghost function SlotOf(): Slot
      requires Valid()
      reads this, bs
    {
      Slot(Parts(bs[..]), loaded)
    }

    constructor ()
      ensures Valid() && fresh(bs) && SlotOf() == Slot({}, false)
    {
      bs, loaded := new uint64[BIT_STRING_NUM](_ => 0), false;
      new;
      PartsZero(bs[..]);
    }

    method IsPreloadCheck(start: nat, delta: int) returns (r: bool)
      requires Valid() && start + delta < BIT_MAX_NUM
      ensures r <==> loaded && Parts(bs[..]) * Range(start, start + delta) != {}
    {
      r := false;
      if loaded {
        var range := new uint64[BIT_STRING_NUM](_ => 0);
        PartsZero(range[..]);
        ConvertToBitstring(start, start + delta, range);
        r := IsPartbitSet(bs, range);
      }
    }

    /** The network's own `load` runs exactly when the result is `true`, on partitions none of which is loaded. */
    method LoadTask(r: Request) returns (ok: bool)
      requires Valid() && r.load && r.Valid()
      modifies this, bs
      ensures Valid() && SlotOf() == RunOn(old(SlotOf()), r).0 && ok == RunOn(old(SlotOf()), r).1
      ensures ok <==> old(Parts(bs[..])) * Range(r.start, r.start + r.delta) == {}
      ensures Parts(bs[..]) == old(Parts(bs[..])) + if ok then Range(r.start, r.start + r.delta) else {}
      ensures loaded <==> ok || old(loaded)
    {
      hide Parts, HasPart;
      var again := IsPreloadCheck(r.start, r.delta);
      ok := !again;
      if ok {
        loaded := true;
        var range := new uint64[BIT_STRING_NUM](_ => 0);
        PartsZero(range[..]);
        ConvertToBitstring(r.start, r.start + r.delta, range);
        BitHandler.SetBit(bs, range);
      }
    }

    method UnloadTask(r: Request) returns (ok: bool)
      requires Valid() && !r.load && r.Valid()
      modifies this, bs
      ensures Valid() && SlotOf() == RunOn(old(SlotOf()), r).0 && ok == RunOn(old(SlotOf()), r).1
      ensures ok <==> old(loaded)
      ensures Parts(bs[..]) == old(Parts(bs[..])) - Range(r.start, r.start + r.delta)
      ensures ok ==> (loaded <==> Parts(bs[..]) != {})
    {
      hide Parts, HasPart;
      ok := loaded;
      if ok {
        var range := new uint64[BIT_STRING_NUM](_ => 0);
        PartsZero(range[..]);
        ConvertToBitstring(r.start, r.start + r.delta, range);
        ClrBit(bs, range);
        var zero := IsAllbitZero(bs);
        if zero {
          loaded := false;
        }
      }
    }
  }

  /** The daemon's check of a client's request for a connected OS. */
  method HandleRequest(nnpos: NnPos, r: Request) returns (sent: bool)
    requires nnpos.Valid() && r.Valid()
    ensures sent <==> Accepts(nnpos.SlotOf(r.osid), r)
    ensures r.load ==> (sent <==> nnpos.On(r.osid) * Range(r.start, r.start + r.delta) == {})
    ensures !r.load ==>
              (sent <==> nnpos.nosbit[r.osid] != null && Range(r.start, r.start + r.delta) <= nnpos.On(r.osid))
  {
    if r.load {
      var overlap := nnpos.IsNosBit(r.osid, r.start, r.delta);
      sent := !overlap;
    } else {
      sent := nnpos.IsNosBitMatch(r.osid, r.start, r.delta);
    }
  }

  /** The daemon's handling of an echo; `exited` is the exit with "nosbit is empty". */
  method HandleEcho(nnpos: NnPos, r: Request, ok: bool) returns (exited: bool)
    requires nnpos.Valid() && r.Valid()
    modifies nnpos.Repr
    ensures nnpos.Valid() && fresh(nnpos.Repr - old(nnpos.Repr))
    ensures forall o :: 0 <= o < MAX_NOS_SUPPORT && (o != r.osid || !ok) ==> nnpos.SlotOf(o) == old(nnpos.SlotOf(o))
    ensures ok ==> Recorded(old(nnpos.SlotOf(r.osid)), r) == if exited then None else Some(nnpos.SlotOf(r.osid))
    ensures exited <==> ok && !r.load && old(nnpos.nosbit[r.osid]) == null
    ensures ok && r.load ==>
              nnpos.On(r.osid) == old(nnpos.On(r.osid)) + Range(r.start, r.start + r.delta)
              && nnpos.nosbit[r.osid] != null
    ensures ok && !r.load && !exited ==>
              nnpos.On(r.osid) == old(nnpos.On(r.osid)) - Range(r.start, r.start + r.delta)
              && (nnpos.nosbit[r.osid] != null <==> nnpos.On(r.osid) != {})
  {
    exited := false;
    if ok {
      if r.load {
        nnpos.SetNosBit(r.osid, r.start, r.delta);
      } else {
        var done := nnpos.ClrNosBit(r.osid, r.start, r.delta);
        exited := !done;
      }
    }
  }
}
