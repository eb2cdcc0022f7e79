/**
 The load and unload protocol between the daemon and its NPU OSes: requests are
 checked against the daemon's possibly stale registry, sent, executed in any
 order, and echoed back over one FIFO channel per OS.
 */
module LoadProtocol {
  import opened Basics
  import opened BitHandler
  import opened Registry
  import opened NpuTasks

  datatype Echo = Echo(req: Request, ok: bool)

  type Key = (nat, nat) // network, OS

  datatype System = System(
    exited: bool,
    connected: set<nat>,
    daemon: map<Key, Slot>,
    os: map<Key, Slot>,
    wire: multiset<Request>,   // sent by the daemon, not yet received
    tasks: multiset<Request>,  // submitted on their OS, not yet run
    echoes: map<nat, seq<Echo>>)

  ghost function At(m: map<Key, Slot>, k: Key): Slot {
    if k in m then m[k] else Slot({}, false)
  }

  ghost function InFlight(s: System, osid: nat): seq<Echo> {
    if osid in s.echoes then s.echoes[osid] else []
  }

  function KeyOf(r: Request): Key {
    (r.nnid, r.osid)
  }

  datatype Event =
    | Connect(osid: nat)
    | Ask(r: Request)     // a client's request reaches the daemon
    | Arrive(r: Request)  // it reaches its OS and becomes a task
    | Run(r: Request)     // some pending task runs, whatever its priority
    | Receive(osid: nat)  // the daemon handles the oldest echo of an OS

  const INIT := System(false, {}, map[], map[], multiset{}, multiset{}, map[])

  ghost predicate Enabled(s: System, e: Event) {
    !s.exited && match e
    case Connect(osid) => osid !in s.connected
    case Ask(r) => true
    case Arrive(r) => r in s.wire
    case Run(r) => r in s.tasks
    case Receive(osid) => InFlight(s, osid) != []
  }

  ghost function After(s: System, e: Event): System
    requires Enabled(s, e)
  {
    match e
    case Connect(osid) => s.(connected := s.connected + {osid})
    case Ask(r) =>
      if r.osid in s.connected && Accepts(At(s.daemon, KeyOf(r)), r) then s.(wire := s.wire + multiset{r}) else s
    case Arrive(r) => s.(wire := s.wire - multiset{r}, tasks := s.tasks + multiset{r})
    case Run(r) =>
      var (slot, ok) := RunOn(At(s.os, KeyOf(r)), r);
      s.(tasks := s.tasks - multiset{r}, os := s.os[KeyOf(r) := slot],
         echoes := s.echoes[r.osid := InFlight(s, r.osid) + [Echo(r, ok)]])
    case Receive(osid) =>
      var echo := InFlight(s, osid)[0];
      var rest := s.(echoes := s.echoes[osid := InFlight(s, osid)[1..]]);
      if !echo.ok then rest
      else match Recorded(At(s.daemon, (echo.req.nnid, osid)), echo.req)
        case None => rest.(exited := true)
        case Some(slot) => rest.(daemon := s.daemon[(echo.req.nnid, osid) := slot])
  }

  /** A run: events and the states between them, each event enabled where it happens. */
  ghost predicate IsRun(events: seq<Event>, states: seq<System>) {
    && |states| == |events| + 1 && states[0] == INIT
    && forall i :: 0 <= i < |events| ==> Enabled(states[i], events[i]) && states[i + 1] == After(states[i], events[i])
  }

  // ----- the invariant

  /** The daemon's record of network `nnid` once it has handled these echoes in order. */
  ghost function Replay(s: Slot, echoes: seq<Echo>, nnid: nat): Option<Slot>
    decreases |echoes|
  {
    if echoes == [] then Some(s)
    else if echoes[0].req.nnid != nnid || !echoes[0].ok then Replay(s, echoes[1..], nnid)
    else match Recorded(s, echoes[0].req)
      case None => None
      case Some(t) => Replay(t, echoes[1..], nnid)
  }

  lemma {:induction false} ReplaySnoc(s: Slot, echoes: seq<Echo>, e: Echo, nnid: nat)
    requires Replay(s, echoes, nnid).Some?
    ensures var t := Replay(s, echoes, nnid).value;
            Replay(s, echoes + [e], nnid) == if e.req.nnid != nnid || !e.ok then Some(t) else Recorded(t, e.req)
    decreases |echoes|
  {
    if echoes == [] {
      assert echoes + [e] == [e] && [e][1..] == [];
    } else {
      assert (echoes + [e])[1..] == echoes[1..] + [e];
      if echoes[0].req.nnid != nnid || !echoes[0].ok {
        ReplaySnoc(s, echoes[1..], e, nnid);
      } else {
        ReplaySnoc(Recorded(s, echoes[0].req).value, echoes[1..], e, nnid);
      }
    }
  }

  /** Handling the echoes in flight turns the daemon's record into the OS's own. */
  ghost predicate InStep(s: System, nnid: nat, osid: nat) {
    && Replay(At(s.daemon, (nnid, osid)), InFlight(s, osid), nnid) == Some(At(s.os, (nnid, osid)))
    && (!At(s.os, (nnid, osid)).present ==> At(s.os, (nnid, osid)).parts == {})
  }

  ghost predicate Inv(s: System) {
    !s.exited && forall nnid: nat, osid: nat :: InStep(s, nnid, osid)
  }

  lemma RunKeepsInv(s: System, r: Request)
    requires Inv(s) && Enabled(s, Run(r))
    ensures Inv(After(s, Run(r)))
  {
    hide Replay;
    var t := After(s, Run(r));
    forall nnid: nat, osid: nat ensures InStep(t, nnid, osid) {
      assert InStep(s, nnid, osid);
      if osid == r.osid {
        var (slot, ok) := RunOn(At(s.os, KeyOf(r)), r);
        ReplaySnoc(At(s.daemon, (nnid, osid)), InFlight(s, osid), Echo(r, ok), nnid);
      }
    }
  }

  lemma ReceiveKeepsInv(s: System, osid: nat)
    requires Inv(s) && Enabled(s, Receive(osid))
    ensures Inv(After(s, Receive(osid)))
  {
    var t := After(s, Receive(osid));
    assert InStep(s, InFlight(s, osid)[0].req.nnid, osid);
    forall nnid: nat, o: nat ensures InStep(t, nnid, o) {
      assert InStep(s, nnid, o);
    }
  }

  lemma StepKeepsInv(s: System, e: Event)
    requires Inv(s) && Enabled(s, e)
    ensures Inv(After(s, e))
  {
    match e
    case Run(r) => RunKeepsInv(s, r);
    case Receive(osid) => ReceiveKeepsInv(s, osid);
    case _ =>
      forall nnid: nat, osid: nat ensures InStep(After(s, e), nnid, osid) { assert InStep(s, nnid, osid); }
  }

  /** In every run, whatever the order of the tasks and however stale the daemon's checks. */
  lemma {:induction false} RunsKeepInv(events: seq<Event>, states: seq<System>, n: nat)
    requires IsRun(events, states) && n < |states|
    ensures Inv(states[n])
  {
    if n == 0 {
      forall nnid: nat, osid: nat ensures InStep(INIT, nnid, osid) {}
    } else {
      RunsKeepInv(events, states, n - 1);
      StepKeepsInv(states[n - 1], events[n - 1]);
    }
  }

  // ----- what follows for runs

  /** The daemon never exits, and agrees with every OS from which no echo is in flight. */
  lemma DaemonAgrees(events: seq<Event>, states: seq<System>, n: nat, nnid: nat, osid: nat)
    requires IsRun(events, states) && n < |states|
    ensures !states[n].exited
    ensures InFlight(states[n], osid) == [] ==> At(states[n].daemon, (nnid, osid)) == At(states[n].os, (nnid, osid))
  {
    RunsKeepInv(events, states, n);
    assert InStep(states[n], nnid, osid);
  }

  /** An OS loads a range exactly when no partition of it is loaded there; it is then loaded. */
  lemma LoadsAreDisjoint(events: seq<Event>, states: seq<System>, n: nat, r: Request)
    requires IsRun(events, states) && n < |events| && events[n] == Run(r) && r.load
    ensures var before, after := At(states[n].os, KeyOf(r)), At(states[n + 1].os, KeyOf(r));
            if before.parts * r.Wanted() == {} then after == Slot(before.parts + r.Wanted(), true) else after == before
  {
    RunsKeepInv(events, states, n);
    assert InStep(states[n], r.nnid, r.osid);
  }

  /** An OS that has anything loaded unloads what is asked for, and says so. */
  lemma UnloadsRemove(events: seq<Event>, states: seq<System>, n: nat, r: Request)
    requires IsRun(events, states) && n < |events| && events[n] == Run(r) && !r.load
    ensures var before, after := At(states[n].os, KeyOf(r)), At(states[n + 1].os, KeyOf(r));
            && after.parts == before.parts - Range(r.start, r.start + r.delta)
            && (before.present ==> (after.present <==> after.parts != {})) && (after.present ==> before.present)
    ensures InFlight(states[n + 1], r.osid)
         == InFlight(states[n], r.osid) + [Echo(r, At(states[n].os, KeyOf(r)).present)]
  {
    RunsKeepInv(events, states, n);
    assert InStep(states[n], r.nnid, r.osid);
  }

  /**
   A client's request goes to a connected OS exactly if, as far as the daemon has
   recorded, nothing of it is there to be loaded, or all of it to be unloaded.
   */
  lemma RequestsAreChecked(events: seq<Event>, states: seq<System>, n: nat, r: Request)
    requires IsRun(events, states) && n < |events| && events[n] == Ask(r)
    ensures var record, range := At(states[n].daemon, (r.nnid, r.osid)), Range(r.start, r.start + r.delta);
            var good := if r.load then record.parts * range == {} else record.present && range <= record.parts;
            states[n + 1].wire == states[n].wire + if r.osid in states[n].connected && good then multiset{r}
                                                   else multiset{}
    ensures states[n + 1].tasks == states[n].tasks && states[n + 1].os == states[n].os
            && states[n + 1].daemon == states[n].daemon && states[n + 1].echoes == states[n].echoes
  {
  }

  /** The oldest echo of an OS changes the daemon's record as the task has changed the OS, if it is an OK. */
  lemma EchoesAreRecorded(events: seq<Event>, states: seq<System>, n: nat, osid: nat)
    requires IsRun(events, states) && n < |events| && events[n] == Receive(osid)
    ensures InFlight(states[n], osid) != [] && InFlight(states[n + 1], osid) == InFlight(states[n], osid)[1..]
    ensures var Echo(r, ok) := InFlight(states[n], osid)[0];
            var range := Range(r.start, r.start + r.delta);
            var before := At(states[n].daemon, (r.nnid, osid));
            var after := At(states[n + 1].daemon, (r.nnid, osid));
            if !ok then after == before
            else if r.load then after == Slot(before.parts + range, true)
            else before.present && after == Slot(before.parts - range, before.parts - range != {})
  {
    RunsKeepInv(events, states, n);
    assert InStep(states[n], InFlight(states[n], osid)[0].req.nnid, osid);
  }

  /** The one task that can separate `loaded` from a non-empty bit string: a load of nothing where nothing is loaded. */
  lemma LoadedIffNonEmptyKept(s: Slot, r: Request)
    requires s.present <==> s.parts != {}
    ensures var t := RunOn(s, r).0;
            (t.present <==> t.parts != {}) <==> !(r.load && r.delta < 0 && !s.present)
  {
    if r.delta >= 0 {
      assert r.start in r.Wanted();
    } else {
      assert r.Wanted() == {};
    }
  }

  /** Every request somewhere in the system asks for at least one partition. */
  ghost predicate AllNonEmpty(s: System) {
    && (forall r :: r in s.wire ==> r.delta >= 0)
    && (forall r :: r in s.tasks ==> r.delta >= 0)
    && (forall k :: k in s.os ==> (s.os[k].present <==> s.os[k].parts != {}))
  }

  /** If clients never ask for an empty range, `loaded` always tells whether the bit string is non-empty. */
  lemma {:induction false} LoadedIffNonEmpty(events: seq<Event>, states: seq<System>, n: nat)
    requires IsRun(events, states) && n < |states|
    requires forall r: Request :: Ask(r) in events ==> r.delta >= 0
    ensures AllNonEmpty(states[n])
  {
    if n > 0 {
      LoadedIffNonEmpty(events, states, n - 1);
      assert events[n - 1] in events;
      StepKeepsNonEmpty(states[n - 1], events[n - 1]);
    }
  }

  lemma StepKeepsNonEmpty(s: System, e: Event)
    requires Enabled(s, e) && AllNonEmpty(s) && (e.Ask? ==> e.r.delta >= 0)
    ensures AllNonEmpty(After(s, e))
  {
    hide RunOn, Recorded, Accepts;
    if e.Run? {
      RunKeepsNonEmpty(s, e.r);
    } else if e.Arrive? {
      ArriveKeepsNonEmpty(s, e.r);
    } else if e.Ask? {
      AskKeepsNonEmpty(s, e.r);
    } else {
      assert After(s, e).wire == s.wire && After(s, e).tasks == s.tasks && After(s, e).os == s.os;
    }
  }

  lemma ArriveKeepsNonEmpty(s: System, r: Request)
    requires Enabled(s, Arrive(r)) && AllNonEmpty(s)
    ensures AllNonEmpty(After(s, Arrive(r)))
  {
    forall q | q in After(s, Arrive(r)).tasks ensures q.delta >= 0 { assert q in s.tasks || q == r; }
    forall q | q in After(s, Arrive(r)).wire ensures q.delta >= 0 { assert q in s.wire; }
  }

  lemma AskKeepsNonEmpty(s: System, r: Request)
    requires Enabled(s, Ask(r)) && AllNonEmpty(s) && r.delta >= 0
    ensures AllNonEmpty(After(s, Ask(r)))
  {
    hide Accepts;
    forall q | q in After(s, Ask(r)).wire ensures q.delta >= 0 { assert q in s.wire || q == r; }
  }

  lemma RunKeepsNonEmpty(s: System, r: Request)
    requires Enabled(s, Run(r)) && AllNonEmpty(s)
    ensures AllNonEmpty(After(s, Run(r)))
  {
    hide RunOn;
    var t := After(s, Run(r));
    LoadedIffNonEmptyKept(At(s.os, KeyOf(r)), r);
    forall q | q in t.tasks ensures q.delta >= 0 { assert q in s.tasks; }
  }

  /** With an empty range it does not: the OS records a network as loaded that has no partition. */
  lemma EmptyLoadIsRecorded()
    ensures exists events: seq<Event>, states: seq<System> ::
              && IsRun(events, states)
              && At(states[|events|].os, (0, 0)) == Slot({}, true)
  {
    var r := Request(true, 0, 0, 0, -1);
    var s1 := After(INIT, Connect(0));
    assert r.Wanted() == {};
    var s2 := After(s1, Ask(r));
    var s3 := After(s2, Arrive(r));
    var s4 := After(s3, Run(r));
    assert Enabled(INIT, Connect(0)) && Enabled(s1, Ask(r)) && Enabled(s2, Arrive(r)) && Enabled(s3, Run(r));
    assert At(s4.os, (0, 0)) == Slot({}, true);
    hide After, Enabled, At;
    var events, states := [Connect(0), Ask(r), Arrive(r), Run(r)], [INIT, s1, s2, s3, s4];
    assert IsRun(events, states) && states[|events|] == s4;
  }
}
