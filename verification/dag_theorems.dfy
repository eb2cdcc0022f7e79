/** What every run of a task graph does, whatever the interleaving of its threads. */
module DagTheorems {
  import opened DagGraph
  import opened DagRunner

  lemma {:induction false} RunsKeepInv(g: Graph, choices: seq<nat>, states: seq<State>, n: nat)
    requires Mirrored(g) && IsRun(g, choices, states) && n < |states|
    ensures Inv(g, states[n])
  {
    if n == 0 {
      StartInv(g);
    } else {
      RunsKeepInv(g, choices, states, n - 1);
      StepKeepsInv(g, states[n - 1], choices[n - 1]);
    }
  }

  /** Each task returns at most once and only after its predecessors, and no starter runs out of num_vsucc. */
  lemma TasksRunInOrder(g: Graph, choices: seq<nat>, states: seq<State>, n: nat, i: nat)
    requires Mirrored(g) && IsRun(g, choices, states) && n < |states| && i < |states[n].returned|
    ensures !states[n].broken
    ensures var r := states[n].returned;
            && r[i] < |g.pred| && (forall j :: 0 <= j < |r| && r[j] == r[i] ==> j == i)
            && forall p :: p in g.pred[r[i]] ==> p in r[..i]
  {
    RunsKeepInv(g, choices, states, n);
    assert PredsBefore(g, states[n].returned[..i], states[n].returned[i]);
  }

  /**
   `num_vsucc` of a starter is never 0, and it is 1 only at the last index of its loop:
   the inline call is a tail call.
   */
  lemma InlineCallIsLast(g: Graph, s: State, k: nat)
    requires Mirrored(g) && Inv(g, s) && Live(g, s, k) && Top(s, k).next < |Targets(g, Top(s, k))|
    requires Top(s, k).Task? ==> Top(s, k).ran
    ensures var v := if Top(s, k).Main? then s.mainVsucc else s.vsucc[Top(s, k).t];
            v >= 1 && (v == 1 ==> Top(s, k).next == |Targets(g, Top(s, k))| - 1)
  {
    hide Into, Heads, Order;
    assert FrameOk(g, s, k, |s.threads[k]| - 1);
  }

  // ----- completeness

  predicate Quiet(s: State) {
    forall k :: 0 <= k < |s.threads| ==> s.threads[k] == []
  }

  lemma {:induction false} HasReturned(g: Graph, s: State, rank: seq<nat>, t: nat)
    requires Mirrored(g) && Ranks(g, rank) && Inv(g, s) && Quiet(s) && t < |g.succ|
    ensures t in s.returned && s.sent[t] == |g.succ[t]|
    decreases rank[t]
  {
    hide Heads, Order;
    assert TaskOk(g, s, t);
    if g.pred[t] == [] {
      var h := Heads(g, |g.pred|);
      assert t in h && h[..|h|] == h;
    } else {
      forall p, j | 0 <= p < |g.succ| && s.sent[p] <= j < |g.succ[p]| ensures g.succ[p][j] != t {
        if g.succ[p][j] == t { HasReturned(g, s, rank, p); }
      }
      IntoZero(g, s.sent, t, |g.succ|);
    }
  }

  /** Once no thread is live, every task of an acyclic graph has returned, exactly once. */
  lemma AllTasksRun(g: Graph, choices: seq<nat>, states: seq<State>)
    requires Mirrored(g) && Acyclic(g) && IsRun(g, choices, states) && Quiet(states[|choices|])
    ensures forall t :: 0 <= t < |g.succ| ==> multiset(states[|choices|].returned)[t] == 1
  {
    var s := states[|choices|];
    RunsKeepInv(g, choices, states, |choices|);
    var rank :| Ranks(g, rank);
    forall t | 0 <= t < |g.succ| ensures multiset(s.returned)[t] == 1 {
      HasReturned(g, s, rank, t);
      OccursOnce(s.returned, t);
    }
  }

  lemma {:induction false} OccursOnce(list: seq<nat>, t: nat)
    requires t in list && forall i, j :: 0 <= i < j < |list| ==> list[i] != list[j]
    ensures multiset(list)[t] == 1
    decreases |list|
  {
    var n := |list| - 1;
    assert list == list[..n] + [list[n]];
    if list[n] == t {
      assert t !in list[..n];
    } else {
      OccursOnce(list[..n], t);
    }
  }

  // ----- termination

  /** What task `t` still has to do: return, deliver its edges, and leave its thread. */
  function Todo(g: Graph, s: State, t: nat): int
    requires Sizes(g, s) && t < |g.succ|
  {
    (if t in s.returned then 0 else 1) + (|g.succ[t]| - s.sent[t]) + (if t in s.begun && t !in s.place then 0 else 1)
  }

  function TodoSum(g: Graph, s: State, m: nat): int
    requires Sizes(g, s) && m <= |g.succ|
  {
    if m == 0 then 0 else TodoSum(g, s, m - 1) + Todo(g, s, m - 1)
  }

  predicate MainLive(s: State) {
    |s.threads| > 0 && s.threads[0] != [] && s.threads[0][0].Main?
  }

  function Measure(g: Graph, s: State): int
    requires Sizes(g, s)
  {
    TodoSum(g, s, |g.succ|) + (|Heads(g, |g.pred|)| - s.mainNext) + (if MainLive(s) then 1 else 0)
  }

  lemma {:induction false} TodoSumStep(g: Graph, s: State, s': State, t: nat, m: nat)
    requires Sizes(g, s) && Sizes(g, s') && m <= |g.succ|
    requires forall u :: 0 <= u < |g.succ| ==> Todo(g, s', u) == Todo(g, s, u) - if u == t then 1 else 0
    ensures TodoSum(g, s', m) == TodoSum(g, s, m) - if t < m then 1 else 0
  {
    if m > 0 {
      TodoSumStep(g, s, s', t, m - 1);
      assert Todo(g, s', m - 1) == Todo(g, s, m - 1) - if m - 1 == t then 1 else 0;
    }
  }

  lemma {:induction false} TodoSumBound(g: Graph, s: State, m: nat)
    requires Inv(g, s) && m <= |g.succ|
    ensures TodoSum(g, s, m) >= 0
  {
    hide Heads, Frames, Order, Begun;
    if m > 0 { TodoSumBound(g, s, m - 1); }
  }

  /** A step of a task's frame does one thing of what the task still has to do. */
  lemma TaskStepTodo(g: Graph, s: State, k: nat, u: nat)
    requires Mirrored(g) && Inv(g, s) && Live(g, s, k) && Top(s, k).Task? && u < |g.succ|
    ensures Sizes(g, After(g, s, k))
    ensures Todo(g, After(g, s, k), u) == Todo(g, s, u) - if u == Top(s, k).t then 1 else 0
  {
    hide Into, Heads, Order;
    assert FrameOk(g, s, k, |s.threads[k]| - 1);
    assert TaskOk(g, s, u) && TaskOk(g, s, Top(s, k).t);
    if Top(s, k).ran && Top(s, k).next < |g.succ[Top(s, k).t]| {
      DeliverCounters(g, s, Top(s, k).t);
    }
  }

  lemma MainStepTodo(g: Graph, s: State, k: nat, u: nat)
    requires Mirrored(g) && Inv(g, s) && Live(g, s, k) && Top(s, k).Main? && u < |g.succ|
    ensures Sizes(g, After(g, s, k))
    ensures Todo(g, After(g, s, k), u) == Todo(g, s, u)
  {
    hide Into, Order;
    assert FrameOk(g, s, k, |s.threads[k]| - 1);
    assert TaskOk(g, s, u);
    if s.mainNext < |Heads(g, |g.pred|)| { MainTargetFresh(g, s); }
  }

  lemma MainTargetFresh(g: Graph, s: State)
    requires Inv(g, s) && s.mainNext < |Heads(g, |g.pred|)|
    ensures Heads(g, |g.pred|)[s.mainNext] !in s.begun
  {
    var h := Heads(g, |g.pred|);
    assert h[s.mainNext] in h;
  }

  /** Every step of every thread lowers the measure by one. */
  lemma StepLowersMeasure(g: Graph, s: State, k: nat)
    requires Mirrored(g) && Inv(g, s) && Live(g, s, k)
    ensures Inv(g, After(g, s, k)) && Measure(g, After(g, s, k)) == Measure(g, s) - 1
  {
    var s' := After(g, s, k);
    StepKeepsInv(g, s, k);
    assert FrameOk(g, s, k, |s.threads[k]| - 1);
    StepMain(g, s, k);
    if Top(s, k).Task? {
      forall u | 0 <= u < |g.succ| ensures Todo(g, s', u) == Todo(g, s, u) - if u == Top(s, k).t then 1 else 0 {
        TaskStepTodo(g, s, k, u);
      }
      TodoSumStep(g, s, s', Top(s, k).t, |g.succ|);
    } else {
      forall u | 0 <= u < |g.succ| ensures Todo(g, s', u) == Todo(g, s, u) - if u == |g.succ| then 1 else 0 {
        MainStepTodo(g, s, k, u);
      }
      TodoSumStep(g, s, s', |g.succ|, |g.succ|);
    }
  }

  lemma StepMain(g: Graph, s: State, k: nat)
    requires Mirrored(g) && Inv(g, s) && Live(g, s, k)
    ensures var s' := After(g, s, k);
            if Top(s, k).Task? then MainLive(s') == MainLive(s) && s'.mainNext == s.mainNext
            else MainLive(s) && if Top(s, k).next == |Heads(g, |g.pred|)|
                                then !MainLive(s') && s'.mainNext == s.mainNext
                                else MainLive(s') && s'.mainNext == s.mainNext + 1
  {
    hide Into, Heads, Order;
    assert FrameOk(g, s, k, |s.threads[k]| - 1);
    if Top(s, k).Task? && Top(s, k).ran && Top(s, k).next < |g.succ[Top(s, k).t]| {
      DeliverCounters(g, s, Top(s, k).t);
    }
  }

  lemma MeasureBound(g: Graph, s: State)
    requires Inv(g, s)
    ensures Sizes(g, s) && Measure(g, s) >= 0
  {
    hide Heads, Frames, Order, Begun;
    TodoSumBound(g, s, |g.succ|);
  }

  /**
   Runs end: no run is longer than the tasks, edges and heads of the graph allow, and a
   quiet state ends exactly there.
   */
  lemma {:induction false} RunsEnd(g: Graph, choices: seq<nat>, states: seq<State>, n: nat)
    requires Mirrored(g) && IsRun(g, choices, states) && n < |states|
    ensures Inv(g, states[n]) && Measure(g, states[n]) == Measure(g, Start(g)) - n && n <= Measure(g, Start(g))
  {
    RunsKeepInv(g, choices, states, n);
    MeasureBound(g, states[n]);
    hide Inv, Measure, After, Mirrored;
    if n > 0 {
      RunsEnd(g, choices, states, n - 1);
      StepLowersMeasure(g, states[n - 1], choices[n - 1]);
    }
  }

  /** A run that cannot be extended has ended because nothing is live. */
  lemma StuckMeansQuiet(g: Graph, choices: seq<nat>, states: seq<State>)
    requires Mirrored(g) && IsRun(g, choices, states)
    requires forall k :: 0 <= k < |states[|choices|].threads| ==> !Live(g, states[|choices|], k)
    ensures Quiet(states[|choices|])
  {
    var s := states[|choices|];
    RunsKeepInv(g, choices, states, |choices|);
    forall k | 0 <= k < |s.threads| ensures s.threads[k] == [] {
      if s.threads[k] != [] { InvLive(g, s, k); }
    }
  }
}
