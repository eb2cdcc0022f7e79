/**
 Running a task graph: threads with stacks of frames, counters that release a
 task when its last predecessor has delivered, and one inline call where the
 source saves a thread. The history fields record what happened and are read by
 no step.
 */
module DagRunner {
  import opened DagGraph

  /** An activation: of the process's own loop over the heads, or of one task, `next` being its loop index. */
  datatype Frame = Main(next: nat) | Task(t: nat, ran: bool, next: nat)

  datatype State = State(
    vpred: seq<int>,
    vsucc: seq<int>,
    mainVsucc: int,
    threads: seq<seq<Frame>>,
    broken: bool,             // a task was ready but its releaser had no num_vsucc left
    // history
    returned: seq<nat>,       // the tasks whose `run` has returned, in order
    begun: set<nat>,
    sent: seq<nat>,           // edges each task has delivered
    mainNext: nat,
    place: map<nat, (nat, nat)>) // thread and depth of the frame of each live task

  function Start(g: Graph): State
    requires |g.succ| == |g.pred|
  {
    var n := |g.succ|;
    State(seq(n, t requires 0 <= t < n => |g.pred[t]|), seq(n, t requires 0 <= t < n => |g.succ[t]|),
          |Heads(g, n)|, [[Main(0)]], false, [], {}, seq(n, _ => 0), 0, map[])
  }

  /** The targets of a frame's loop. */
  function Targets(g: Graph, f: Frame): seq<nat>
    requires |g.succ| == |g.pred| && (f.Task? ==> f.t < |g.succ|)
  {
    if f.Main? then Heads(g, |g.pred|) else g.succ[f.t]
  }

  /** Thread `k` is live, and its top frame makes sense. */
  predicate Live(g: Graph, s: State, k: nat) {
    && |g.succ| == |g.pred| == |s.vpred| == |s.vsucc| == |s.sent|
    && k < |s.threads| && s.threads[k] != []
    && (Top(s, k).Task? ==> Top(s, k).t < |g.succ|)
    && (forall i :: 0 <= i < |Targets(g, Top(s, k))| ==> Targets(g, Top(s, k))[i] < |g.succ|)
  }

  function Top(s: State, k: nat): Frame
    requires k < |s.threads| && s.threads[k] != []
  {
    s.threads[k][|s.threads[k]| - 1]
  }

  function WithTop(s: State, k: nat, f: Frame): State
    requires k < |s.threads| && s.threads[k] != []
  {
    s.(threads := s.threads[k := s.threads[k][..|s.threads[k]| - 1] + [f]])
  }

  /** A new thread starts with task `t`. */
  function Spawn(s: State, t: nat): State {
    s.(threads := s.threads + [[Task(t, false, 0)]], begun := s.begun + {t}, place := s.place[t := (|s.threads|, 0)])
  }

  /** Thread `k` calls task `t` itself. */
  function Call(s: State, k: nat, t: nat): State
    requires k < |s.threads|
  {
    s.(threads := s.threads[k := s.threads[k] + [Task(t, false, 0)]], begun := s.begun + {t},
       place := s.place[t := (k, |s.threads[k]|)])
  }

  /** Starts `t`, `v` being the starter's num_vsucc. */
  function Launch(s: State, k: nat, t: nat, v: int): State
    requires k < |s.threads|
  {
    if v > 1 then Spawn(s, t) else if v == 1 then Call(s, k, t) else s.(broken := true)
  }

  /** The next step of thread `k`. */
  function After(g: Graph, s: State, k: nat): State
    requires Live(g, s, k)
  {
    match Top(s, k)
    case Main(i) =>
      if i == |Heads(g, |g.pred|)| then Pop(s, k)
      else if i > |Heads(g, |g.pred|)| then s.(broken := true)
      else Launch(WithTop(s, k, Main(i + 1)).(mainVsucc := s.mainVsucc - 1, mainNext := s.mainNext + 1), k,
                  Heads(g, |g.pred|)[i], s.mainVsucc)
    case Task(t, ran, i) =>
      if !ran then WithTop(s, k, Task(t, true, i)).(returned := s.returned + [t])
      else if i == |g.succ[t]| then Pop(s, k).(place := s.place - {t})
      else if i > |g.succ[t]| then s.(broken := true)
      else Deliver(g, s, k, t, i)
  }

  function Pop(s: State, k: nat): State
    requires k < |s.threads| && s.threads[k] != []
  {
    s.(threads := s.threads[k := s.threads[k][..|s.threads[k]| - 1]])
  }

  /** Decrements the counter of the `i`th successor of `t` and starts it at zero. */
  function Deliver(g: Graph, s: State, k: nat, t: nat, i: nat): State
    requires Live(g, s, k) && Top(s, k) == Task(t, true, i) && i < |g.succ[t]|
  {
    assert Targets(g, Top(s, k))[i] < |g.succ|;
    var u := g.succ[t][i];
    var s1 := WithTop(s, k, Task(t, true, i + 1)).(
        vpred := s.vpred[u := s.vpred[u] - 1], sent := s.sent[t := s.sent[t] + 1]);
    if s.vpred[u] != 1 then s1
    else Launch(s1.(vsucc := s.vsucc[t := s.vsucc[t] - 1]), k, u, s.vsucc[t])
  }

  /** A run: at each moment some live thread makes its next step. */
  predicate IsRun(g: Graph, choices: seq<nat>, states: seq<State>) {
    && |g.succ| == |g.pred|
    && |states| == |choices| + 1 && states[0] == Start(g)
    && forall i :: 0 <= i < |choices| ==>
         Live(g, states[i], choices[i]) && states[i + 1] == After(g, states[i], choices[i])
  }

  // ----- the invariant

  predicate Sizes(g: Graph, s: State) {
    |g.succ| == |g.pred| == |s.vpred| == |s.vsucc| == |s.sent|
  }

  /** The counters count undelivered edges, and a starter always has enough num_vsucc left. */
  ghost predicate Counters(g: Graph, s: State)
    requires Sizes(g, s)
  {
    && (forall t :: 0 <= t < |g.succ| ==> s.vpred[t] == Into(g, s.sent, t, |g.succ|))
    && (forall t :: 0 <= t < |g.succ| ==> s.sent[t] <= |g.succ[t]| && s.vsucc[t] >= |g.succ[t]| - s.sent[t])
    && s.mainNext <= |Heads(g, |g.pred|)| && s.mainVsucc >= |Heads(g, |g.pred|)| - s.mainNext
  }

  /** A head has begun when the main loop has passed it, any other task when no edge into it is undelivered. */
  ghost predicate Begun(g: Graph, s: State)
    requires Sizes(g, s) && s.mainNext <= |Heads(g, |g.pred|)|
  {
    forall t :: 0 <= t < |g.succ| ==>
      (t in s.begun <==>
       if g.pred[t] == [] then t in Heads(g, |g.pred|)[..s.mainNext] else Into(g, s.sent, t, |g.succ|) == 0)
  }

  /** What the history says of task `t`. */
  predicate TaskOk(g: Graph, s: State, t: nat)
    requires Sizes(g, s) && t < |g.succ|
  {
    && (t in s.place ==> t in s.begun)
    && (t !in s.begun ==> s.sent[t] == 0 && t !in s.returned)
    && (t in s.begun && t !in s.place ==> t in s.returned && s.sent[t] == |g.succ[t]|)
    && (s.sent[t] > 0 ==> t in s.returned)
    && (t in s.place ==> s.place[t].0 < |s.threads| && s.place[t].1 < |s.threads[s.place[t].0]|
                         && s.threads[s.place[t].0][s.place[t].1].Task?
                         && s.threads[s.place[t].0][s.place[t].1].t == t)
  }

  /** The frame at depth `d` of thread `k` is the only one of its task; below the top only finished loops wait. */
  predicate FrameOk(g: Graph, s: State, k: nat, d: nat)
    requires Sizes(g, s) && k < |s.threads| && d < |s.threads[k]|
  {
    match s.threads[k][d]
    case Main(i) => k == 0 && d == 0 && i == s.mainNext && (d < |s.threads[k]| - 1 ==> i == |Heads(g, |g.pred|)|)
    case Task(t, ran, i) =>
      && t < |g.succ| && t in s.place && s.place[t] == (k, d)
      && i == s.sent[t] && (ran <==> t in s.returned)
      && (d < |s.threads[k]| - 1 ==> ran && i == |g.succ[t]|)
  }

  ghost predicate Frames(g: Graph, s: State)
    requires Sizes(g, s)
  {
    && (forall t :: 0 <= t < |g.succ| ==> TaskOk(g, s, t))
    && (forall k, d :: 0 <= k < |s.threads| && 0 <= d < |s.threads[k]| ==> FrameOk(g, s, k, d))
    && |s.threads| > 0
    && ((s.threads[0] != [] && s.threads[0][0].Main?) || s.mainNext == |Heads(g, |g.pred|)|)
  }

  /** No task returns twice, and none before its predecessors. */
  predicate Order(g: Graph, returned: seq<nat>) {
    && (forall i, j :: 0 <= i < j < |returned| ==> returned[i] != returned[j])
    && (forall j :: 0 <= j < |returned| ==> returned[j] < |g.pred| && PredsBefore(g, returned[..j], returned[j]))
  }

  predicate PredsBefore(g: Graph, before: seq<nat>, t: nat)
    requires t < |g.pred|
  {
    forall p :: p in g.pred[t] ==> p in before
  }

  ghost predicate Inv(g: Graph, s: State) {
    Sizes(g, s) && Counters(g, s) && Begun(g, s) && Frames(g, s) && Order(g, s.returned) && !s.broken
  }

  lemma StartInv(g: Graph)
    requires Mirrored(g)
    ensures Inv(g, Start(g))
  {
    hide Into, Heads;
    var s := Start(g);
    forall t | 0 <= t < |g.succ| ensures Into(g, s.sent, t, |g.succ|) == |g.pred[t]| {
      IntoIsNumPred(g, t);
    }
    forall t | 0 <= t < |g.succ| ensures TaskOk(g, s, t) {}
  }

  /** Every live thread can take a step. */
  lemma InvLive(g: Graph, s: State, k: nat)
    requires Mirrored(g) && Inv(g, s) && k < |s.threads| && s.threads[k] != []
    ensures Live(g, s, k)
  {
    assert FrameOk(g, s, k, |s.threads[k]| - 1);
    var h := Heads(g, |g.pred|);
    assert forall i :: 0 <= i < |h| ==> h[i] in h;
  }

  /** A task that has begun has all its predecessors behind it. */
  lemma BegunAfterPreds(g: Graph, s: State, t: nat)
    requires Mirrored(g) && Inv(g, s) && t < |g.succ| && t in s.begun
    ensures PredsBefore(g, s.returned, t)
  {
    forall p | p in g.pred[t] ensures p in s.returned {
      var j := PredHasSucc(g, t, p);
      IntoZero(g, s.sent, t, |g.succ|);
      assert TaskOk(g, s, p);
    }
  }

  lemma OrderSnoc(g: Graph, returned: seq<nat>, t: nat)
    requires Order(g, returned) && t < |g.pred| && t !in returned && PredsBefore(g, returned, t)
    ensures Order(g, returned + [t])
  {
    var r := returned + [t];
    forall j | 0 <= j < |r| ensures r[j] < |g.pred| && PredsBefore(g, r[..j], r[j]) {
      if j < |returned| { assert r[..j] == returned[..j]; } else { assert r[..j] == returned; }
    }
  }

  lemma ReturnKeepsInv(g: Graph, s: State, k: nat)
    requires Mirrored(g) && Inv(g, s) && Live(g, s, k) && Top(s, k).Task? && !Top(s, k).ran
    ensures Inv(g, After(g, s, k))
  {
    hide Into, Heads, Order;
    var s' := After(g, s, k);
    var t := Top(s, k).t;
    assert FrameOk(g, s, k, |s.threads[k]| - 1);
    assert TaskOk(g, s, t);
    BegunAfterPreds(g, s, t);
    OrderSnoc(g, s.returned, t);
    forall u | 0 <= u < |g.succ| ensures TaskOk(g, s', u) { assert TaskOk(g, s, u); }
    forall l, d | 0 <= l < |s'.threads| && 0 <= d < |s'.threads[l]| ensures FrameOk(g, s', l, d) {
      assert FrameOk(g, s, l, d);
    }
  }

  lemma PopKeepsInv(g: Graph, s: State, k: nat)
    requires Mirrored(g) && Inv(g, s) && Live(g, s, k)
    requires Top(s, k).next == |Targets(g, Top(s, k))| && (Top(s, k).Task? ==> Top(s, k).ran)
    ensures Inv(g, After(g, s, k))
  {
    hide Into, Heads, Order, Mirrored;
    var s' := After(g, s, k);
    assert FrameOk(g, s, k, |s.threads[k]| - 1);
    assert Counters(g, s') && Begun(g, s');
    hide Counters, Begun;
    forall u | 0 <= u < |g.succ| ensures TaskOk(g, s', u) { assert TaskOk(g, s, u); }
    forall l, d | 0 <= l < |s'.threads| && 0 <= d < |s'.threads[l]| ensures FrameOk(g, s', l, d) {
      assert FrameOk(g, s, l, d);
    }
  }

  /** All of the invariant but that `u`, which now may begin, has not begun. */
  ghost predicate Ready(g: Graph, s: State, u: nat) {
    && Sizes(g, s) && Counters(g, s) && Frames(g, s) && Order(g, s.returned) && !s.broken
    && u < |g.succ| && u !in s.begun
    && (forall t :: 0 <= t < |g.succ| ==>
          (t in s.begun || t == u <==>
           if g.pred[t] == [] then t in Heads(g, |g.pred|)[..s.mainNext] else Into(g, s.sent, t, |g.succ|) == 0))
  }

  /** The inline call is made only by a frame whose loop is done. */
  predicate Finished(g: Graph, f: Frame)
    requires |g.succ| == |g.pred|
  {
    match f
    case Main(i) => i == |Heads(g, |g.pred|)|
    case Task(t, ran, i) => t < |g.succ| && ran && i == |g.succ[t]|
  }

  lemma SpawnInv(g: Graph, s: State, u: nat)
    requires Ready(g, s, u)
    ensures Inv(g, Spawn(s, u))
  {
    hide Into, Heads;
    var s' := Spawn(s, u);
    forall t | 0 <= t < |g.succ| ensures TaskOk(g, s', t) { assert TaskOk(g, s, t); }
    forall l, d | 0 <= l < |s'.threads| && 0 <= d < |s'.threads[l]| ensures FrameOk(g, s', l, d) {
      assert TaskOk(g, s, u);
      if l < |s.threads| { assert FrameOk(g, s, l, d); }
    }
  }

  lemma CallInv(g: Graph, s: State, k: nat, u: nat)
    requires Ready(g, s, u) && k < |s.threads| && s.threads[k] != [] && Finished(g, Top(s, k))
    ensures Inv(g, Call(s, k, u))
  {
    hide Into, Heads;
    var s' := Call(s, k, u);
    forall t | 0 <= t < |g.succ| ensures TaskOk(g, s', t) { assert TaskOk(g, s, t); }
    forall l, d | 0 <= l < |s'.threads| && 0 <= d < |s'.threads[l]| ensures FrameOk(g, s', l, d) {
      assert TaskOk(g, s, u);
      if d < |s.threads[l]| { assert FrameOk(g, s, l, d); }
    }
  }

  lemma LaunchInv(g: Graph, s: State, k: nat, u: nat, v: int)
    requires Ready(g, s, u) && k < |s.threads| && s.threads[k] != []
    requires v >= 1 && (v == 1 ==> Finished(g, Top(s, k)))
    ensures Inv(g, Launch(s, k, u, v))
  {
    if v > 1 { SpawnInv(g, s, u); } else { CallInv(g, s, k, u); }
  }

  /** The top frame moves on by one target. */
  lemma AdvanceFrames(g: Graph, s: State, s1: State, k: nat, f: Frame)
    requires Sizes(g, s) && Frames(g, s) && k < |s.threads| && s.threads[k] != [] && Sizes(g, s1)
    requires s1.threads == WithTop(s, k, f).threads && s1.place == s.place && s1.returned == s.returned
             && s1.begun == s.begun
    requires match f
             case Main(i) => Top(s, k).Main? && s1.sent == s.sent && s1.mainNext == i == s.mainNext + 1
             case Task(t, ran, i) =>
               i > 0 && Top(s, k) == Task(t, true, i - 1) && ran && s1.mainNext == s.mainNext
               && t < |g.succ| && s1.sent == s.sent[t := i]
    ensures Frames(g, s1)
  {
    hide Into, Heads;
    var top := |s.threads[k]| - 1;
    assert FrameOk(g, s, k, top);
    forall t | 0 <= t < |g.succ| ensures TaskOk(g, s1, t) { assert TaskOk(g, s, t); }
    forall l, d | 0 <= l < |s1.threads| && 0 <= d < |s1.threads[l]| ensures FrameOk(g, s1, l, d) {
      assert FrameOk(g, s, l, d);
    }
  }

  lemma MainKeepsInv(g: Graph, s: State, k: nat)
    requires Mirrored(g) && Inv(g, s) && Live(g, s, k) && Top(s, k).Main? && Top(s, k).next < |Heads(g, |g.pred|)|
    ensures Inv(g, After(g, s, k))
  {
    hide Into, Heads;
    var i := Top(s, k).next;
    var heads := Heads(g, |g.pred|);
    assert FrameOk(g, s, k, |s.threads[k]| - 1);
    var s1 := WithTop(s, k, Main(i + 1)).(mainVsucc := s.mainVsucc - 1, mainNext := s.mainNext + 1);
    AdvanceFrames(g, s, s1, k, Main(i + 1));
    assert heads[..i + 1] == heads[..i] + [heads[i]];
    assert heads[i] in heads && heads[i] !in heads[..i];
    assert g.pred[heads[i]] == [] && heads[i] !in s.begun;
    assert Counters(g, s1) && !s1.broken;
    assert Ready(g, s1, heads[i]);
    hide Frames;
    LaunchInv(g, s1, k, heads[i], s.mainVsucc);
  }

  lemma DeliverCounters(g: Graph, s: State, t: nat)
    requires Mirrored(g) && Inv(g, s) && t < |g.succ| && s.sent[t] < |g.succ[t]|
    ensures var u := g.succ[t][s.sent[t]];
            var sent := s.sent[t := s.sent[t] + 1];
            && g.pred[u] != [] && s.vpred[u] >= 1 && u !in s.begun
            && (forall v :: 0 <= v < |g.succ| ==>
                  Into(g, sent, v, |g.succ|) == if v == u then s.vpred[v] - 1 else s.vpred[v])
  {
    SuccHasPred(g, t, s.sent[t]);
    var u := g.succ[t][s.sent[t]];
    forall v | 0 <= v < |g.succ|
      ensures Into(g, s.sent[t := s.sent[t] + 1], v, |g.succ|) == if v == u then s.vpred[v] - 1 else s.vpred[v]
    {
      IntoStep(g, s.sent, t, v, |g.succ|);
    }
    IntoZero(g, s.sent, u, |g.succ|);
  }

  lemma DeliverKeepsInv(g: Graph, s: State, k: nat, t: nat, i: nat)
    requires Mirrored(g) && Inv(g, s) && Live(g, s, k) && Top(s, k) == Task(t, true, i) && i < |g.succ[t]|
    ensures Inv(g, Deliver(g, s, k, t, i))
  {
    hide Into, Heads;
    assert FrameOk(g, s, k, |s.threads[k]| - 1);
    DeliverCounters(g, s, t);
    var u := g.succ[t][i];
    var s1 := WithTop(s, k, Task(t, true, i + 1)).(
        vpred := s.vpred[u := s.vpred[u] - 1], sent := s.sent[t := s.sent[t] + 1]);
    AdvanceFrames(g, s, s1, k, Task(t, true, i + 1));
    if s.vpred[u] == 1 {
      var s2 := s1.(vsucc := s.vsucc[t := s.vsucc[t] - 1]);
      AdvanceFrames(g, s, s2, k, Task(t, true, i + 1));
      LaunchInv(g, s2, k, u, s.vsucc[t]);
    }
  }

  lemma StepKeepsInv(g: Graph, s: State, k: nat)
    requires Mirrored(g) && Inv(g, s) && Live(g, s, k)
    ensures Inv(g, After(g, s, k))
  {
    hide Into, Heads, Order;
    assert FrameOk(g, s, k, |s.threads[k]| - 1);
    match Top(s, k)
    case Main(i) =>
      if i == |Heads(g, |g.pred|)| { PopKeepsInv(g, s, k); } else { MainKeepsInv(g, s, k); }
    case Task(t, ran, i) =>
      if !ran {
        ReturnKeepsInv(g, s, k);
      } else if i == |g.succ[t]| {
        PopKeepsInv(g, s, k);
      } else {
        DeliverKeepsInv(g, s, k, t, i);
      }
  }
}
