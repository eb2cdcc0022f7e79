/**
 The counters of a network process as the threads decrement them in place, and
 the decision that follows from them; each method is one step of the runner.
 */
module Nprocess {
  import opened DagGraph
  import opened DagRunner
  import DagTheorems

  /** What becomes of a successor: it waits for others, gets a thread, or is called; `Stuck` is the error case. */
  datatype Decision = Wait | Fork | Inline | Stuck

  /** The threads once thread `k` has dealt with task `u`. */
  function Dealt(threads: seq<seq<Frame>>, k: nat, u: nat, d: Decision): seq<seq<Frame>>
    requires k < |threads|
  {
    match d
    case Fork => threads + [[Task(u, false, 0)]]
    case Inline => threads[k := threads[k] + [Task(u, false, 0)]]
    case _ => threads
  }

  class Process {
    const num_vpred: array<int>
    const num_vsucc: array<int>
    var np_num_vsucc: int  // of the process itself

    ghost predicate Mirrors(s: State)
      reads this, num_vpred, num_vsucc
    {
      num_vpred[..] == s.vpred && num_vsucc[..] == s.vsucc && np_num_vsucc == s.mainVsucc && num_vpred != num_vsucc
    }

    constructor (n: nat)
      ensures num_vpred.Length == num_vsucc.Length == n && num_vpred != num_vsucc
    {
      num_vpred, num_vsucc, np_num_vsucc := new int[n], new int[n], 0;
    }

    /** The counters at the start of a run. */
    method SetUp(g: Graph, succ: seq<nat>)
      requires |g.succ| == |g.pred| == num_vpred.Length == num_vsucc.Length && num_vpred != num_vsucc
      requires succ == Heads(g, |g.pred|)
      modifies this, num_vpred, num_vsucc
      ensures Mirrors(Start(g))
    {
      for t := 0 to |g.succ|
        invariant forall u :: 0 <= u < t ==> num_vpred[u] == |g.pred[u]| && num_vsucc[u] == |g.succ[u]|
      {
        num_vpred[t] := |g.pred[t]|;
        num_vsucc[t] := |g.succ[t]|;
      }
      np_num_vsucc := |succ|;
    }

    /** One turn of the process's own loop, over the tasks without predecessors. */
    method StartHead(succ: seq<nat>, i: nat, ghost g: Graph, ghost s: State, ghost k: nat) returns (d: Decision)
      requires Mirrored(g) && Inv(g, s) && Live(g, s, k) && Mirrors(s)
      requires Top(s, k) == Main(i) && succ == Heads(g, |g.pred|) && i < |succ|
      modifies this`np_num_vsucc
      ensures Mirrors(After(g, s, k)) && d in {Fork, Inline}
      ensures d == (if old(np_num_vsucc) > 1 then Fork else Inline) && np_num_vsucc == old(np_num_vsucc) - 1
      ensures After(g, s, k).threads == Dealt(WithTop(s, k, Main(i + 1)).threads, k, succ[i], d)
    {
      DagTheorems.InlineCallIsLast(g, s, k);
      hide Inv, Mirrored, Heads;
      if np_num_vsucc > 1 {
        d := Fork;
        np_num_vsucc := np_num_vsucc - 1;
      } else if np_num_vsucc == 1 {
        np_num_vsucc := np_num_vsucc - 1;
        d := Inline;
      } else {
        d := Stuck;
      }
    }

    /** One turn of the loop of a task that has run: a successor's counter falls, and at zero it is started. */
    method Deliver(succ: seq<nat>, t: nat, i: nat, ghost g: Graph, ghost s: State, ghost k: nat) returns (d: Decision)
      requires Mirrored(g) && Inv(g, s) && Live(g, s, k) && Mirrors(s)
      requires Top(s, k) == Task(t, true, i) && succ == g.succ[t] && i < |succ|
      modifies num_vpred, num_vsucc
      ensures Mirrors(After(g, s, k)) && d != Stuck
      ensures t < num_vsucc.Length && succ[i] < num_vpred.Length
      ensures d == if old(num_vpred[succ[i]]) != 1 then Wait else if old(num_vsucc[t]) > 1 then Fork else Inline
      ensures num_vpred[..] == old(num_vpred[..])[succ[i] := old(num_vpred[succ[i]]) - 1]
      ensures num_vsucc[..] == if d == Wait then old(num_vsucc[..])
                               else old(num_vsucc[..])[t := old(num_vsucc[t]) - 1]
      ensures After(g, s, k).threads == Dealt(WithTop(s, k, Task(t, true, i + 1)).threads, k, succ[i], d)
    {
      DagTheorems.InlineCallIsLast(g, s, k);
      hide Inv, Mirrored;
      var u := succ[i];
      assert u == Targets(g, Top(s, k))[i] < |g.succ|;
      num_vpred[u] := num_vpred[u] - 1;
      d := Wait;
      if num_vpred[u] == 0 {
        if num_vsucc[t] > 1 {
          d := Fork;
          num_vsucc[t] := num_vsucc[t] - 1;
        } else if num_vsucc[t] == 1 {
          num_vsucc[t] := num_vsucc[t] - 1;
          d := Inline;
        } else {
          d := Stuck;
        }
      }
    }
  }
}
