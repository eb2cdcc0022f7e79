/**
 The task graph of a network process: mirrored successor and predecessor lists,
 and how many edges into a task are still undelivered.
 */
module DagGraph {

  /** Tasks are numbered in the order in which `contain` lists them. */
  datatype Graph = Graph(succ: seq<seq<nat>>, pred: seq<seq<nat>>)

  /** Every edge is in both lists, equally often. */
  ghost predicate Mirrored(g: Graph) {
    && |g.succ| == |g.pred|
    && (forall s, j :: 0 <= s < |g.succ| && 0 <= j < |g.succ[s]| ==> g.succ[s][j] < |g.succ|)
    && (forall t, j :: 0 <= t < |g.pred| && 0 <= j < |g.pred[t]| ==> g.pred[t][j] < |g.succ|)
    && (forall s, t :: 0 <= s < |g.succ| && 0 <= t < |g.succ| ==> multiset(g.succ[s])[t] == multiset(g.pred[t])[s])
  }

  ghost predicate Ranks(g: Graph, rank: seq<nat>) {
    && |rank| == |g.succ|
    && forall s, j :: 0 <= s < |g.succ| && 0 <= j < |g.succ[s]| && g.succ[s][j] < |rank| ==>
       rank[s] < rank[g.succ[s][j]]
  }

  ghost predicate Acyclic(g: Graph) {
    exists rank :: Ranks(g, rank)
  }

  // ----- counting edges

  /** How often `t` is in `list` from place `from` on. */
  function CountFrom(list: seq<nat>, from: nat, t: nat): nat
    decreases |list| - from
  {
    if from >= |list| then 0 else (if list[from] == t then 1 else 0) + CountFrom(list, from + 1, t)
  }

  /**
   The edges from the first `m` tasks into `t` that are still undelivered, `sent[s]` of
   those of `s` being delivered.
   */
  function Into(g: Graph, sent: seq<nat>, t: nat, m: nat): nat
    requires m <= |g.succ| && |sent| == |g.succ|
  {
    if m == 0 then 0 else Into(g, sent, t, m - 1) + CountFrom(g.succ[m - 1], sent[m - 1], t)
  }

  lemma {:induction false} CountFromZero(list: seq<nat>, from: nat, t: nat)
    ensures CountFrom(list, from, t) == 0 <==> forall j :: from <= j < |list| ==> list[j] != t
    decreases |list| - from
  {
    if from < |list| { CountFromZero(list, from + 1, t); }
  }

  lemma {:induction false} CountFromAll(list: seq<nat>, from: nat, t: nat)
    requires from <= |list|
    ensures CountFrom(list, from, t) == multiset(list[from..])[t]
    decreases |list| - from
  {
    if from < |list| {
      CountFromAll(list, from + 1, t);
      assert list[from..] == [list[from]] + list[from + 1..];
    }
  }

  lemma {:induction false} IntoZero(g: Graph, sent: seq<nat>, t: nat, m: nat)
    requires m <= |g.succ| && |sent| == |g.succ|
    ensures Into(g, sent, t, m) == 0 <==>
            forall s, j :: 0 <= s < m && sent[s] <= j < |g.succ[s]| ==> g.succ[s][j] != t
  {
    if m > 0 {
      IntoZero(g, sent, t, m - 1);
      CountFromZero(g.succ[m - 1], sent[m - 1], t);
    }
  }

  /** Delivering the next edge of `s` changes the count of its target alone. */
  lemma {:induction false} IntoStep(g: Graph, sent: seq<nat>, s: nat, t: nat, m: nat)
    requires m <= |g.succ| && |sent| == |g.succ| && s < |g.succ| && sent[s] < |g.succ[s]|
    ensures Into(g, sent[s := sent[s] + 1], t, m)
         == Into(g, sent, t, m) - if s < m && g.succ[s][sent[s]] == t then 1 else 0
  {
    if m > 0 { IntoStep(g, sent, s, t, m - 1); }
  }

  /** Occurrences of each of the first `m` numbers in a list, summed. */
  function Occurrences(list: seq<nat>, m: nat): nat {
    if m == 0 then 0 else Occurrences(list, m - 1) + multiset(list)[m - 1]
  }

  lemma {:induction false} OccurrencesSnoc(list: seq<nat>, x: nat, m: nat)
    ensures Occurrences(list + [x], m) == Occurrences(list, m) + if x < m then 1 else 0
  {
    if m > 0 { OccurrencesSnoc(list, x, m - 1); }
  }

  lemma {:induction false} OccurrencesOfNone(m: nat)
    ensures Occurrences([], m) == 0
  {
    if m > 0 { OccurrencesOfNone(m - 1); }
  }

  lemma {:induction false} OccurrencesAll(list: seq<nat>, m: nat)
    requires forall j :: 0 <= j < |list| ==> list[j] < m
    ensures Occurrences(list, m) == |list|
    decreases |list|
  {
    if list == [] {
      OccurrencesOfNone(m);
    } else {
      var n := |list| - 1;
      assert list == list[..n] + [list[n]];
      OccurrencesSnoc(list[..n], list[n], m);
      OccurrencesAll(list[..n], m);
    }
  }

  /** Before anything runs, the edges into a task are as many as its predecessors. */
  lemma {:induction false} IntoStart(g: Graph, t: nat, m: nat)
    requires Mirrored(g) && t < |g.succ| && m <= |g.succ|
    ensures Into(g, seq(|g.succ|, _ => 0), t, m) == Occurrences(g.pred[t], m)
  {
    if m > 0 {
      IntoStart(g, t, m - 1);
      CountFromAll(g.succ[m - 1], 0, t);
      assert g.succ[m - 1][0..] == g.succ[m - 1];
    }
  }

  lemma IntoIsNumPred(g: Graph, t: nat)
    requires Mirrored(g) && t < |g.succ|
    ensures Into(g, seq(|g.succ|, _ => 0), t, |g.succ|) == |g.pred[t]|
  {
    IntoStart(g, t, |g.succ|);
    OccurrencesAll(g.pred[t], |g.succ|);
  }

  /** A predecessor has the task among its successors. */
  lemma PredHasSucc(g: Graph, t: nat, p: nat) returns (j: nat)
    requires Mirrored(g) && t < |g.succ| && p in g.pred[t]
    ensures p < |g.succ| && j < |g.succ[p]| && g.succ[p][j] == t
  {
    var i :| 0 <= i < |g.pred[t]| && g.pred[t][i] == p;
    assert multiset(g.pred[t])[p] > 0;
    assert t in multiset(g.succ[p]);
    j :| 0 <= j < |g.succ[p]| && g.succ[p][j] == t;
  }

  lemma SuccHasPred(g: Graph, s: nat, j: nat)
    requires Mirrored(g) && s < |g.succ| && j < |g.succ[s]|
    ensures s in g.pred[g.succ[s][j]]
  {
    var t := g.succ[s][j];
    assert t in multiset(g.succ[s]);
    assert s in multiset(g.pred[t]);
  }

  // ----- heads and tails

  /** The first `m` tasks that have no predecessor, in list order. */
  function Heads(g: Graph, m: nat): (r: seq<nat>)
    requires m <= |g.pred|
    ensures forall t: nat :: t in r <==> t < m && g.pred[t] == []
    ensures forall i, j :: 0 <= i < j < |r| ==> r[i] < r[j]
  {
    if m == 0 then []
    else
      var r := Heads(g, m - 1);
      assert forall i :: 0 <= i < |r| ==> r[i] in r;
      if g.pred[m - 1] == [] then r + [m - 1] else r
  }

  function Tails(g: Graph, m: nat): (r: seq<nat>)
    requires m <= |g.succ|
    ensures forall t: nat :: t in r <==> t < m && g.succ[t] == []
    ensures forall i, j :: 0 <= i < j < |r| ==> r[i] < r[j]
  {
    if m == 0 then []
    else
      var r := Tails(g, m - 1);
      assert forall i :: 0 <= i < |r| ==> r[i] in r;
      if g.succ[m - 1] == [] then r + [m - 1] else r
  }

  /** The process's successors are the heads of the graph, its predecessors the tails. */
  method Contain(g: Graph) returns (succ: seq<nat>, pred: seq<nat>)
    requires |g.succ| == |g.pred|
    ensures succ == Heads(g, |g.pred|) && pred == Tails(g, |g.succ|)
  {
    succ, pred := [], [];
    for t := 0 to |g.succ|
      invariant succ == Heads(g, t) && pred == Tails(g, t)
    {
      if |g.pred[t]| == 0 {
        succ := succ + [t];
      }
      if |g.succ[t]| == 0 {
        pred := pred + [t];
      }
    }
  }
}
