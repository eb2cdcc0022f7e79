/**
 The level-1 scheduler: the NPU OS with the least expected completion time, or
 with the fewest tasks, among those that hold the requested partitions.
 */
module Scheduler {
  import opened Basics
  import opened Bits
  import opened BitHandler
  import opened Registry
  import opened WcetList

  type Table = nos: seq<ServerNpuOS?> | |nos| == MAX_NOS_SUPPORT witness seq(MAX_NOS_SUPPORT, _ => null)

  /** How many of the first `n` indices have an OS. */
  ghost function Number(nos: Table, n: nat): (r: nat)
    requires n <= MAX_NOS_SUPPORT
    ensures r <= n
  {
    if n == 0 then 0 else Number(nos, n - 1) + if nos[n - 1] == null then 0 else 1
  }

  /** What the daemon keeps: `num` is the number of its OSes, wherever they are. */
  ghost predicate Counted(nos: Table, num: nat) {
    num == Number(nos, MAX_NOS_SUPPORT)
  }

  /** The OSes fill the indices below `num`. */
  ghost predicate Dense(nos: Table, num: nat) {
    num <= MAX_NOS_SUPPORT && forall i :: 0 <= i < MAX_NOS_SUPPORT ==> (nos[i] != null <==> i < num)
  }

  /** Among the first `n` indices when the OSes fill those below `num`. */
  lemma {:induction false} NumberDense(nos: Table, num: nat, n: nat)
    requires n <= MAX_NOS_SUPPORT && forall i :: 0 <= i < n ==> (nos[i] != null <==> i < num)
    ensures Number(nos, n) == if n <= num then n else num
  {
    if n > 0 { NumberDense(nos, num, n - 1); }
  }

  lemma {:induction false} NumberFull(nos: Table, n: nat)
    requires n <= MAX_NOS_SUPPORT
    ensures Number(nos, n) == n <==> forall i :: 0 <= i < n ==> nos[i] != null
  {
    if n > 0 { NumberFull(nos, n - 1); }
  }

  lemma {:induction false} NumberMono(nos: Table, n: nat, m: nat)
    requires n <= m <= MAX_NOS_SUPPORT
    ensures Number(nos, n) <= Number(nos, m)
    ensures Number(nos, n) == Number(nos, m) <==> forall i :: n <= i < m ==> nos[i] == null
  {
    if n < m { NumberMono(nos, n, m - 1); }
  }

  /**
   A loop up to `num` meets every OS exactly if there is no gap, and meets no index
   without an OS exactly if there is no gap.
   */
  lemma GapsAreMissed(nos: Table, num: nat)
    requires Counted(nos, num)
    ensures Dense(nos, num) <==> forall i :: num <= i < MAX_NOS_SUPPORT ==> nos[i] == null
    ensures Dense(nos, num) <==> forall i :: 0 <= i < num ==> nos[i] != null
  {
    NumberMono(nos, num, MAX_NOS_SUPPORT);
    NumberFull(nos, num);
  }

  lemma {:induction false} NumberUpdate(nos: Table, i: nat, os: ServerNpuOS?, n: nat)
    requires i < MAX_NOS_SUPPORT && n <= MAX_NOS_SUPPORT && (nos[i] == null <==> os != null)
    ensures Number(nos[i := os], n) == Number(nos, n) + if n <= i then 0 else if os != null then 1 else -1
  {
    if n > 0 { NumberUpdate(nos, i, os, n - 1); }
  }

  /** `Exits`: an id below -1 ends the daemon. `Outside`: an id behind the table is used as an index. */
  datatype Connection = Exits | Refused | Outside | Connected(osid: nat)

  /**
   An OS connects, with an id of its own or with -1. What the loops of the scheduler
   meet afterwards is told by `num'`: the new OS exactly unless it took an index above
   the next one for itself.
   */
  method Connect(nos: array<ServerNpuOS?>, num: nat, id: int) returns (c: Connection, num': nat)
    requires nos.Length == MAX_NOS_SUPPORT && Counted(nos[..], num)
    modifies nos
    ensures c == if id < -1 then Exits
                 else if num >= MAX_NOS_SUPPORT then Refused
                 else if id >= MAX_NOS_SUPPORT then Outside
                 else if old(nos[if id == -1 then num else id]) != null then Refused
                 else Connected(if id == -1 then num else id)
    ensures c.Connected? ==>
              && num' == num + 1 && c.osid < nos.Length && nos[c.osid] != null
              && fresh({nos[c.osid], nos[c.osid].q} + nos[c.osid].Queues + nos[c.osid].Nodes) && nos[c.osid].Valid()
              && nos[c.osid].Table == map[] && nos[c.osid].ewt == 0.0 && nos[c.osid].ntasks == 0
    ensures forall i :: 0 <= i < nos.Length && c != Connected(i) ==> nos[i] == old(nos[i])
    ensures !c.Connected? ==> num' == num
    ensures Counted(nos[..], num')
    ensures c.Connected? ==> (c.osid < num' <==> id <= num)
    ensures old(Dense(nos[..], num)) ==> (Dense(nos[..], num') <==> !(c.Connected? && id > num))
  {
    num' := num;
    var osid: nat := 0;
    if id == -1 {
      osid := num;
    } else if id > -1 {
      osid := id;
    } else {
      return Exits, num;
    }
    if num >= MAX_NOS_SUPPORT {
      c := Refused;
    } else if osid >= MAX_NOS_SUPPORT {
      c := Outside;
    } else if nos[osid] == null {
      ghost var before := nos[..];
      var os := new ServerNpuOS();
      nos[osid] := os;
      num' := num + 1;
      c := Connected(osid);
      NumberUpdate(before, osid, os, MAX_NOS_SUPPORT);
      assert nos[..] == before[osid := os];
      GapsAreMissed(before, num);
      GapsAreMissed(nos[..], num');
    } else {
      c := Refused;
    }
  }

  /** An OS goes; `false` if there is none with this id. */
  method Disconnect(nos: array<ServerNpuOS?>, num: nat, id: nat) returns (ok: bool, num': nat)
    requires nos.Length == MAX_NOS_SUPPORT && Counted(nos[..], num) && id < MAX_NOS_SUPPORT
    modifies nos
    ensures ok <==> old(nos[id]) != null
    ensures nos[..] == old(nos[..])[id := null]
    ensures Counted(nos[..], num') && num' == if ok then num - 1 else num
    ensures old(Dense(nos[..], num)) ==> (Dense(nos[..], num') <==> !ok || id == num - 1)
  {
    ghost var before := nos[..];
    ok, num' := false, num;
    if nos[id] != null {
      NumberUpdate(before, id, null, MAX_NOS_SUPPORT);
      nos[id] := null;
      num' := num - 1;
      ok := true;
      assert nos[..] == before[id := null];
    }
  }

  /** OS `i` may be chosen: connected, allowed by the client, and holding the whole range. */
  ghost predicate Eligible(nnpos: NnPos, num: nat, start: int, delta: int, affinity: uint32, i: int)
    requires nnpos.Valid()
    reads nnpos, nnpos.Repr
  {
    && 0 <= i < num && i < MAX_NOS_SUPPORT && Bit(affinity, i)
    && nnpos.nosbit[i] != null && Range(start, start + delta) <= nnpos.On(i)
  }

  lemma MaskedBits(bits: uint32, affinity: uint32)
    ensures forall i: nat :: Bit(And(bits, affinity), i) <==> Bit(bits, i) && Bit(affinity, i)
    ensures And(bits, affinity) < 0x1_0000_0000
    ensures And(bits, affinity) == 0 ==> forall i: nat :: !Bit(And(bits, affinity), i)
  {
    AndBound(bits, affinity);
    forall i: nat ensures Bit(And(bits, affinity), i) <==> Bit(bits, i) && Bit(affinity, i) {
      BitAnd(bits, affinity, i);
    }
    if And(bits, affinity) == 0 {
      forall i: nat ensures !Bit(And(bits, affinity), i) { BitZero(i); }
    }
  }

  /** The mask of the OSes that may be chosen. */
  method Candidates(nnpos: NnPos, start: nat, delta: int, affinity: uint32) returns (mbits: uint32)
    requires nnpos.Valid() && start + delta < BIT_MAX_NUM
    ensures forall i, num: nat :: 0 <= i < num <= MAX_NOS_SUPPORT ==>
              (Bit(mbits, i) <==> Eligible(nnpos, num, start, delta, affinity, i))
    ensures forall i :: 0 <= i < MAX_NOS_SUPPORT ==>
              (Bit(mbits, i) <==>
               Bit(affinity, i) && nnpos.nosbit[i] != null && Range(start, start + delta) <= nnpos.On(i))
    ensures mbits == 0 ==> forall i: nat :: !Bit(mbits, i)
  {
    hide Bit, And;
    var bits := nnpos.MaskNosBitMatch(start, delta);
    MaskedBits(bits, affinity);
    mbits := And(bits, affinity);
  }

  /** `mbits & (1 << i)` */
  method TestBit(mbits: uint32, i: nat) returns (r: bool)
    requires i < MAX_NOS_SUPPORT
    ensures r <==> Bit(mbits, i)
  {
    TestMask(mbits, i);
    r := And(mbits, Pow2(i)) != 0;
  }

  /** In-flight work plus the recorded worst case of the request. */
  ghost function Completion(os: ServerNpuOS, nnid: nat, start: int, delta: int): real
    reads os
  {
    os.ewt + Lookup(os.Table, Key(nnid, start, delta))
  }

  /** Minimum worst-case completion time; `dblMax` is the bound the search starts from. */
  method Mwct(nnpos: NnPos, nos: array<ServerNpuOS?>, num: nat, nnid: nat, start: nat, delta: int,
              affinity: uint32, dblMax: real) returns (r: int)
    requires nnpos.Valid() && nos.Length == MAX_NOS_SUPPORT && num <= MAX_NOS_SUPPORT
    requires nnid < NETWORKS && start + delta < BIT_MAX_NUM
    requires forall i :: Eligible(nnpos, num, start, delta, affinity, i) ==> nos[i] != null && nos[i].Valid()
    ensures r == -1 || Eligible(nnpos, num, start, delta, affinity, r)
    ensures r == -1 <==>
            forall i :: Eligible(nnpos, num, start, delta, affinity, i) ==>
                Completion(nos[i], nnid, start, delta) >= dblMax
    ensures r >= 0 ==> forall i :: Eligible(nnpos, num, start, delta, affinity, i) ==>
              var t, u := Completion(nos[r], nnid, start, delta), Completion(nos[i], nnid, start, delta);
              t < u || (t == u && r <= i)
  {
    hide Bit, And;
    var mbits := Candidates(nnpos, start, delta, affinity);
    r := -1;
    var mintime := dblMax;
    if mbits != 0 {
      forall i: nat | i < num && Bit(mbits, i) ensures nos[i] != null && nos[i].Valid() {
        assert Eligible(nnpos, num, start, delta, affinity, i);
      }
      for i := 0 to num
        invariant -1 <= r < i && (r == -1 ==> mintime == dblMax)
        invariant r >= 0 ==> Bit(mbits, r) && mintime == Completion(nos[r], nnid, start, delta) < dblMax
        invariant forall k :: 0 <= k < i && Bit(mbits, k) ==>
                    var u := Completion(nos[k], nnid, start, delta);
                    mintime < u || (mintime == u && (r == -1 || r <= k))
      {
        var set_ := TestBit(mbits, i);
        if set_ {
          var wcet := nos[i].GetWcet(nnid, start, delta);
          if mintime > nos[i].ewt + wcet {
            mintime := nos[i].ewt + wcet;
            r := i;
          }
        }
      }
    }
  }

  /** Minimum number of tasks. */
  method Mnt(nnpos: NnPos, nos: array<ServerNpuOS?>, num: nat, start: nat, delta: int, affinity: uint32)
    returns (r: int)
    requires nnpos.Valid() && nos.Length == MAX_NOS_SUPPORT && num <= MAX_NOS_SUPPORT && start + delta < BIT_MAX_NUM
    requires forall i :: Eligible(nnpos, num, start, delta, affinity, i) ==> nos[i] != null
    ensures r == -1 || Eligible(nnpos, num, start, delta, affinity, r)
    ensures r == -1 <==>
            forall i :: Eligible(nnpos, num, start, delta, affinity, i) ==> nos[i].ntasks >= INT_MAX
    ensures r >= 0 ==> forall i :: Eligible(nnpos, num, start, delta, affinity, i) ==>
              nos[r].ntasks < nos[i].ntasks || (nos[r].ntasks == nos[i].ntasks && r <= i)
  {
    hide Bit, And;
    var mbits := Candidates(nnpos, start, delta, affinity);
    r := -1;
    var min_ntasks := INT_MAX;
    if mbits != 0 {
      forall i: nat | i < num && Bit(mbits, i) ensures nos[i] != null {
        assert Eligible(nnpos, num, start, delta, affinity, i);
      }
      for i := 0 to num
        invariant -1 <= r < i && (r == -1 ==> min_ntasks == INT_MAX)
        invariant r >= 0 ==> Bit(mbits, r) && min_ntasks == nos[r].ntasks < INT_MAX
        invariant forall k :: 0 <= k < i && Bit(mbits, k) ==>
                    min_ntasks < nos[k].ntasks || (min_ntasks == nos[k].ntasks && (r == -1 || r <= k))
      {
        var set_ := TestBit(mbits, i);
        if set_ && min_ntasks > nos[i].ntasks {
          min_ntasks := nos[i].ntasks;
          r := i;
        }
      }
    }
  }
}
