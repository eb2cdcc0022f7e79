/**
 The ready queues as 256 sequences: what pushing, removing and choosing the
 highest task mean.
 */
module ReadySpec {
  import opened Basics

  const PRIORITIES := 256

  /** The greatest priority below `n` whose queue is not empty, -1 if there is none. */
  function TopPriority<T>(qs: seq<seq<T>>, n: nat): (p: int)
    requires n <= |qs|
    ensures -1 <= p < n
    ensures p >= 0 ==> qs[p] != []
    ensures forall q :: p < q < n ==> qs[q] == []
  {
    if n == 0 then -1 else if qs[n - 1] != [] then n - 1 else TopPriority(qs, n - 1)
  }

  /** The first task of the greatest priority that has one. */
  function Highest<T>(qs: seq<seq<T>>): Option<T> {
    var p := TopPriority(qs, |qs|);
    if p < 0 then None else Some(qs[p][0])
  }

  function Push<T>(qs: seq<seq<T>>, p: nat, t: T): seq<seq<T>>
    requires p < |qs|
  {
    qs[p := qs[p] + [t]]
  }

  function Without<T(==)>(q: seq<T>, t: T): seq<T> {
    if q == [] then [] else if q[0] == t then q[1..] else [q[0]] + Without(q[1..], t)
  }

  function Remove<T(==)>(qs: seq<seq<T>>, p: nat, t: T): seq<seq<T>>
    requires p < |qs|
  {
    qs[p := Without(qs[p], t)]
  }

  lemma {:induction false} WithoutAt<T>(q: seq<T>, k: nat)
    requires k < |q| && forall i, j :: 0 <= i < j < |q| ==> q[i] != q[j]
    ensures Without(q, q[k]) == q[..k] + q[k + 1..]
  {
    if k > 0 {
      WithoutAt(q[1..], k - 1);
      assert q[1..][..k - 1] == q[1..k];
    }
  }

  /** The highest task is the first of its queue, and no task with a greater priority is ready. */
  lemma HighestIsTop<T>(qs: seq<seq<T>>, p: nat)
    requires p < |qs| && qs[p] != []
    ensures var h := TopPriority(qs, |qs|);
            p <= h < |qs| && qs[h] != [] && Highest(qs) == Some(qs[h][0])
  {
  }

  lemma HighestNone<T>(qs: seq<seq<T>>)
    ensures Highest(qs) == None <==> forall p :: 0 <= p < |qs| ==> qs[p] == []
  {
  }
}
