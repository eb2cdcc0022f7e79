/**
 The executor loop of an NPU OS over the ready queues, with tasks submitted by
 the handler thread at any moment. A task is named by its submission number;
 number 0 is the idle task.
 */
module Executor {
  import opened Basics
  import opened ReadySpec

  /** `Halted`: the run loop has ended because a task set `shutdown`. */
  datatype Phase = Looping | Running(t: nat) | Halted

  datatype State = State(
    queues: seq<seq<nat>>,
    prio: seq<nat>,          // the priority of each task submitted so far
    current: Option<nat>,
    phase: Phase,
    finished: seq<nat>)      // the tasks that returned and were removed, in order

  const IDLE: nat := 0

  datatype Event =
    | Submit(p: nat)  // by the handler thread
    | Pick            // `highest` is not `current`: it becomes current and starts
    | Return(shutdown: bool) // a task other than idle returns and is removed; the super task has set `shutdown`
    | Wake            // idle sees that it is no longer the highest

  function Init(): State {
    State(seq(PRIORITIES, p => if p == 0 then [IDLE] else []), [0], None, Looping, [])
  }

  predicate Enabled(s: State, e: Event) {
    |s.queues| == PRIORITIES && match e
    case Submit(p) => p < PRIORITIES
    case Pick => s.phase == Looping && Highest(s.queues) != s.current && Highest(s.queues).Some?
    case Return(_) => s.phase.Running? && s.phase.t != IDLE && s.phase.t < |s.prio| && s.prio[s.phase.t] < PRIORITIES
    case Wake => s.phase == Running(IDLE) && Highest(s.queues) != s.current
  }

  function After(s: State, e: Event): State
    requires Enabled(s, e)
  {
    match e
    case Submit(p) => s.(queues := Push(s.queues, p, |s.prio|), prio := s.prio + [p])
    case Pick => s.(current := Highest(s.queues), phase := Running(Highest(s.queues).value))
    case Return(shutdown) =>
      s.(queues := Remove(s.queues, s.prio[s.phase.t], s.phase.t), phase := if shutdown then Halted else Looping,
         finished := s.finished + [s.phase.t])
    case Wake => s.(phase := Looping)
  }

  predicate IsRun(events: seq<Event>, states: seq<State>) {
    && |states| == |events| + 1 && states[0] == Init()
    && forall i :: 0 <= i < |events| ==> Enabled(states[i], events[i]) && states[i + 1] == After(states[i], events[i])
  }

  // ----- the invariant

  /** Queue `p` holds tasks of priority `p` in submission order. */
  predicate QueueOk(q: seq<nat>, p: nat, prio: seq<nat>) {
    && (forall i :: 0 <= i < |q| ==> q[i] < |prio| && prio[q[i]] == p)
    && (forall i, j :: 0 <= i < j < |q| ==> q[i] < q[j])
  }

  /** Every task is either queued or finished. */
  predicate Accounted(s: State, t: nat)
    requires |s.queues| == PRIORITIES && t < |s.prio|
  {
    s.prio[t] < PRIORITIES && (t in s.queues[s.prio[t]] <==> t !in s.finished)
  }

  predicate Inv(s: State) {
    && |s.queues| == PRIORITIES
    && (forall p :: 0 <= p < PRIORITIES ==> QueueOk(s.queues[p], p, s.prio))
    && (forall t :: 0 <= t < |s.prio| ==> Accounted(s, t))
    && (forall i, j :: 0 <= i < j < |s.finished| ==> s.finished[i] != s.finished[j])
    && (forall i :: 0 <= i < |s.finished| ==> s.finished[i] < |s.prio|)
    && (s.queues[0] != [] && s.queues[0][0] == IDLE)
    && (s.current.Some? ==> s.current.value < |s.prio|)
    && match s.phase
       case Looping => Highest(s.queues) != s.current
       case Halted => true
       case Running(t) =>
         && t < |s.prio| && s.prio[t] < PRIORITIES && s.current == Some(t)
         && s.queues[s.prio[t]] != [] && s.queues[s.prio[t]][0] == t
  }

  lemma SubmitKeepsInv(s: State, p: nat)
    requires Inv(s) && p < PRIORITIES
    ensures Inv(After(s, Submit(p)))
  {
    hide Highest;
    var s' := After(s, Submit(p));
    var t := |s.prio|;
    assert t !in s.finished;
    forall q | 0 <= q < PRIORITIES ensures QueueOk(s'.queues[q], q, s'.prio) { assert QueueOk(s.queues[q], q, s.prio); }
    forall u | 0 <= u < |s'.prio| ensures Accounted(s', u) {
      if u < t { assert Accounted(s, u); } else { assert s'.queues[p][|s.queues[p]|] == t; }
    }
    HighestAfterPush(s.queues, p, t);
  }

  lemma HighestAfterPush(qs: seq<seq<nat>>, p: nat, t: nat)
    requires p < |qs|
    ensures Highest(Push(qs, p, t)) == Some(t) || Highest(Push(qs, p, t)) == Highest(qs)
  {
    var h, h' := TopPriority(qs, |qs|), TopPriority(Push(qs, p, t), |qs|);
    assert Push(qs, p, t)[p] != [];
    if h >= 0 { assert Push(qs, p, t)[h] != []; }
  }

  lemma PickKeepsInv(s: State)
    requires Inv(s) && Enabled(s, Pick)
    ensures Inv(After(s, Pick))
  {
    var s' := After(s, Pick);
    var h := TopPriority(s.queues, PRIORITIES);
    assert QueueOk(s.queues[h], h, s.prio);
    forall u | 0 <= u < |s'.prio| ensures Accounted(s', u) { assert Accounted(s, u); }
  }

  lemma ReturnKeepsInv(s: State, shutdown: bool)
    requires Inv(s) && Enabled(s, Return(shutdown))
    ensures Inv(After(s, Return(shutdown)))
  {
    var s' := After(s, Return(shutdown));
    var t := s.phase.t;
    var p := s.prio[t];
    assert s'.queues[p] == s.queues[p][1..];
    assert Accounted(s, t) && t in s.queues[p];
    forall q | 0 <= q < PRIORITIES ensures QueueOk(s'.queues[q], q, s'.prio) && t !in s'.queues[q] {
      assert QueueOk(s.queues[q], q, s.prio);
    }
    forall u | 0 <= u < |s'.prio| ensures Accounted(s', u) {
      assert Accounted(s, u);
      if s.prio[u] == p && u != t { assert u in s.queues[p] <==> u in s.queues[p][1..]; }
    }
  }

  lemma StepKeepsInv(s: State, e: Event)
    requires Inv(s) && Enabled(s, e)
    ensures Inv(After(s, e))
  {
    match e
    case Submit(p) => SubmitKeepsInv(s, p);
    case Pick => PickKeepsInv(s);
    case Return(shutdown) => ReturnKeepsInv(s, shutdown);
    case Wake => forall u | 0 <= u < |s.prio| ensures Accounted(After(s, e), u) { assert Accounted(s, u); }
  }

  lemma {:induction false} RunsKeepInv(events: seq<Event>, states: seq<State>, n: nat)
    requires IsRun(events, states) && n < |states|
    ensures Inv(states[n])
  {
    if n == 0 {
      forall p | 0 <= p < PRIORITIES ensures QueueOk(Init().queues[p], p, [0]) {}
    } else {
      RunsKeepInv(events, states, n - 1);
      StepKeepsInv(states[n - 1], events[n - 1]);
    }
  }

  // ----- what follows for runs

  predicate ReadyTask(s: State, u: nat) {
    u < |s.prio| && s.prio[u] < |s.queues| && u in s.queues[s.prio[u]]
  }

  /**
   A task is started only when no ready task has a higher priority, or the same priority
   and an earlier submission.
   */
  lemma StartsTheHighest(events: seq<Event>, states: seq<State>, n: nat, u: nat)
    requires IsRun(events, states) && n < |events| && events[n] == Pick && ReadyTask(states[n], u)
    ensures states[n + 1].phase.Running?
    ensures var t, prio := states[n + 1].phase.t, states[n].prio;
            ReadyTask(states[n], t) && (prio[u] < prio[t] || (prio[u] == prio[t] && t <= u))
  {
    var s := states[n];
    RunsKeepInv(events, states, n);
    HighestIsTop(s.queues, s.prio[u]);
    var h := TopPriority(s.queues, PRIORITIES);
    assert QueueOk(s.queues[h], h, s.prio);
    assert s.queues[h][0] in s.queues[h];
  }

  /** A running task is the head of its own queue until it is removed, and the idle task always is. */
  lemma RunningIsHead(events: seq<Event>, states: seq<State>, n: nat)
    requires IsRun(events, states) && n < |states|
    ensures var s := states[n];
            && |s.queues| == PRIORITIES && s.queues[0] != [] && s.queues[0][0] == IDLE && Highest(s.queues).Some?
            && (s.phase.Running? ==> ReadyTask(s, s.phase.t) && s.queues[s.prio[s.phase.t]][0] == s.phase.t)
  {
    RunsKeepInv(events, states, n);
    var s := states[n];
    HighestIsTop(s.queues, 0);
    if s.phase.Running? {
      assert Accounted(s, s.phase.t);
      assert s.queues[s.prio[s.phase.t]][0] in s.queues[s.prio[s.phase.t]];
    }
  }

  /** No task returns twice, and the idle task never does. */
  lemma ReturnsOnce(events: seq<Event>, states: seq<State>, n: nat)
    requires IsRun(events, states) && n < |states|
    ensures IDLE !in states[n].finished
    ensures forall i, j :: 0 <= i < j < |states[n].finished| ==> states[n].finished[i] != states[n].finished[j]
  {
    RunsKeepInv(events, states, n);
    var s := states[n];
    assert IDLE in s.queues[0];
    assert QueueOk(s.queues[0], 0, s.prio);
    assert Accounted(s, IDLE);
  }

  /** Once the loop has ended no task starts or returns any more. */
  lemma {:induction false} HaltedForGood(events: seq<Event>, states: seq<State>, a: nat, b: nat)
    requires IsRun(events, states) && a <= b < |states| && states[a].phase == Halted
    ensures states[b].phase == Halted && states[b].finished == states[a].finished
            && states[b].current == states[a].current
    decreases b
  {
    if a < b { HaltedForGood(events, states, a, b - 1); }
  }

  // ----- liveness

  /** Ready tasks of priority 1 to `n - 1`. */
  /**
   What happens in a run. A task that is submitted joins the end of the queue of its
   priority; the highest one is started; the one that returns was the head of its queue
   and leaves it; and the loop ends exactly when a task has set `shutdown`.
   */
  lemma WhatHappens(events: seq<Event>, states: seq<State>, n: nat)
    requires IsRun(events, states) && n < |events|
    ensures var s, t := states[n], states[n + 1];
            && |s.queues| == PRIORITIES
            && match events[n]
               case Submit(p) =>
                 && p < PRIORITIES && t.queues == s.queues[p := s.queues[p] + [|s.prio|]] && t.prio == s.prio + [p]
                 && t.phase == s.phase && t.current == s.current && t.finished == s.finished
               case Pick =>
                 && s.phase == Looping && Highest(s.queues).Some? && s.current != Highest(s.queues)
                 && t == s.(current := Highest(s.queues), phase := Running(Highest(s.queues).value))
               case Return(shutdown) =>
                 && s.phase.Running? && s.phase.t != IDLE && s.phase.t < |s.prio|
                 && var p := s.prio[s.phase.t];
                    && p < PRIORITIES && s.queues[p] != [] && s.queues[p][0] == s.phase.t
                    && t == s.(queues := s.queues[p := s.queues[p][1..]], finished := s.finished + [s.phase.t],
                               phase := if shutdown then Halted else Looping)
               case Wake =>
                 s.phase == Running(IDLE) && Highest(s.queues) != s.current && t == s.(phase := Looping)
  {
    RunsKeepInv(events, states, n);
    hide Highest;
  }

  function Pending(qs: seq<seq<nat>>, n: nat): nat
    requires n <= |qs|
  {
    if n <= 1 then 0 else Pending(qs, n - 1) + |qs[n - 1]|
  }

  lemma {:induction false} PendingZero(qs: seq<seq<nat>>, n: nat)
    requires n <= |qs|
    ensures Pending(qs, n) == 0 <==> forall p :: 1 <= p < n ==> qs[p] == []
  {
    if n > 1 { PendingZero(qs, n - 1); }
  }

  lemma {:induction false} PendingUpdate(qs: seq<seq<nat>>, p: nat, q: seq<nat>, n: nat)
    requires p < |qs| && n <= |qs|
    ensures Pending(qs[p := q], n) == Pending(qs, n) + if 1 <= p < n then |q| - |qs[p]| else 0
  {
    if n > 1 { PendingUpdate(qs, p, q, n - 1); }
  }

  function Measure(s: State): nat
    requires |s.queues| == PRIORITIES
  {
    3 * Pending(s.queues, PRIORITIES) + match s.phase case Looping => 1 case Running(t) => if t == IDLE then 2 else 0
                                          case Halted => 0
  }

  /**
   While a task of priority 1 or more waits, the executor can step, and every step without
   a submission makes progress.
   */
  lemma StepsProgress(s: State, e: Event)
    requires Inv(s) && Pending(s.queues, PRIORITIES) > 0 && s.phase != Halted
    ensures Enabled(s, Pick) || Enabled(s, Return(false)) || Enabled(s, Wake)
    ensures Enabled(s, e) && !e.Submit? ==> Inv(After(s, e)) && Measure(After(s, e)) < Measure(s)
    ensures Enabled(s, e) && e != Return(true) ==> After(s, e).phase != Halted
  {
    PendingZero(s.queues, PRIORITIES);
    var p :| 1 <= p < PRIORITIES && s.queues[p] != [];
    HighestIsTop(s.queues, p);
    var h := TopPriority(s.queues, PRIORITIES);
    assert QueueOk(s.queues[h], h, s.prio) && QueueOk(s.queues[0], 0, s.prio);
    if s.phase.Running? { assert Accounted(s, s.phase.t); }
    if Enabled(s, e) && !e.Submit? {
      StepKeepsInv(s, e);
      if e.Return? {
        var q := s.prio[s.phase.t];
        assert Without(s.queues[q], s.phase.t) == s.queues[q][1..];
        PendingUpdate(s.queues, q, s.queues[q][1..], PRIORITIES);
      }
    }
  }

  /** Without submissions and shutdown, all tasks of priority 1 or more are finished after at most `Measure` steps. */
  lemma {:induction false} AllFinish(events: seq<Event>, states: seq<State>, a: nat, b: nat)
    requires IsRun(events, states) && a <= b < |states|
    requires forall i :: a <= i < b ==> !events[i].Submit? && events[i] != Return(true)
    requires states[a].phase != Halted
    requires forall i :: a <= i < b ==> Pending(states[i].queues, |states[i].queues|) > 0
    ensures Inv(states[a]) && Inv(states[b]) && Measure(states[b]) + (b - a) <= Measure(states[a])
    ensures states[b].phase != Halted
    decreases b - a
  {
    RunsKeepInv(events, states, a);
    RunsKeepInv(events, states, b);
    hide After, Highest, QueueOk, Accounted, Pending;
    if a < b {
      AllFinish(events, states, a, b - 1);
      StepsProgress(states[b - 1], events[b - 1]);
    }
  }

  /** Nothing is pending exactly when every task of priority 1 or more has finished. */
  lemma NothingPending(s: State)
    requires Inv(s)
    ensures Pending(s.queues, PRIORITIES) == 0 <==> forall t :: 0 <= t < |s.prio| && s.prio[t] >= 1 ==> t in s.finished
  {
    PendingZero(s.queues, PRIORITIES);
    if Pending(s.queues, PRIORITIES) == 0 {
      forall t | 0 <= t < |s.prio| && s.prio[t] >= 1 ensures t in s.finished { assert Accounted(s, t); }
    } else {
      var p :| 1 <= p < PRIORITIES && s.queues[p] != [];
      var t := s.queues[p][0];
      assert QueueOk(s.queues[p], p, s.prio);
      assert t in s.queues[p];
      assert Accounted(s, t);
    }
  }

  /** A task submitted with priority 0 never starts: the idle task stays before it in its queue. */
  lemma {:induction false} ZeroPriorityStarves(events: seq<Event>, states: seq<State>, n: nat, t: nat)
    requires IsRun(events, states) && n < |states| && 0 < t < |states[n].prio| && states[n].prio[t] == 0
    ensures states[n].phase != Running(t) && t !in states[n].finished
    decreases n
  {
    RunsKeepInv(events, states, n);
    if n > 0 {
      RunsKeepInv(events, states, n - 1);
      if t < |states[n - 1].prio| {
        KeepsPriority(states[n - 1], events[n - 1], t);
        ZeroPriorityStarves(events, states, n - 1, t);
      }
      FinishedNext(states[n - 1], events[n - 1], t);
    }
  }

  lemma KeepsPriority(s: State, e: Event, t: nat)
    requires Enabled(s, e) && t < |s.prio|
    ensures t < |After(s, e).prio| && After(s, e).prio[t] == s.prio[t]
  {
  }

  lemma FinishedNext(s: State, e: Event, t: nat)
    requires Inv(s) && Enabled(s, e)
    ensures t in After(s, e).finished ==> t < |s.prio| && (t in s.finished || s.phase == Running(t))
  {
  }
}
