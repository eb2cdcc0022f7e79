/** Intrusive doubly linked queues of tasks. */
module TaskQueue {

  datatype TaskState = Dormant | Ready | Running

  class Task {
    var prev: Task?
    var next: Task?
    const priority: nat
    var state: TaskState

    constructor (p: nat)
      requires p < 256
      ensures priority == p && state == Dormant
    {
      priority, state, prev, next := p, Dormant, null, null;
    }
  }

  class Queue {
    var head: Task?
    var tail: Task?
    var count: int
    ghost var Contents: seq<Task>

    /** The links spell out `Contents`, in which no task occurs twice. */
    ghost predicate Valid()
      reads this, Contents`prev, Contents`next
    {
      && count == |Contents|
      && (forall i, j :: 0 <= i < j < |Contents| ==> Contents[i] != Contents[j])
      && (forall i :: 0 <= i < |Contents| ==> Linked(i))
      && head == (if Contents == [] then null else Contents[0])
      && tail == (if Contents == [] then null else Contents[|Contents| - 1])
    }

    ghost predicate Linked(i: nat)
      requires i < |Contents|
      reads this, Contents`prev, Contents`next
    {
      && Contents[i].prev == (if i == 0 then null else Contents[i - 1])
      && Contents[i].next == (if i == |Contents| - 1 then null else Contents[i + 1])
    }

    constructor ()
      ensures Valid() && Contents == []
    {
      head, tail, count, Contents := null, null, 0, [];
    }

    method IsEmpty() returns (r: bool)
      requires Valid()
      ensures r <==> Contents == []
    {
      r := head == null;
    }

    method Push(node: Task)
      requires Valid() && node !in Contents
      modifies this, node, Contents
      ensures Valid() && Contents == old(Contents) + [node]
      ensures forall t :: t in Contents ==> t.state == old(t.state)
    {
      if head == null {
        head := node;
        tail := node;
        node.prev := null;
        node.next := null;
      } else {
        assert Linked(|Contents| - 1);
        node.prev := tail;
        node.next := null;
        tail.next := node;
        tail := node;
      }
      count := count + 1;
      Contents := Contents + [node];
      forall i | 0 <= i < |Contents| ensures Linked(i) {
        if i < |old(Contents)| { assert old(Linked(i)); }
      }
    }

    method Pop() returns (p: Task?)
      requires Valid()
      modifies this, Contents
      ensures Valid()
      ensures if old(Contents) == [] then p == null && Contents == []
              else p == old(Contents)[0] && Contents == old(Contents)[1..]
    {
      p := head;
      if p != null {
        assert Linked(0);
        head := p.next;
        if p.next != null {
          assert Linked(1);
          p.next.prev := p.prev;
        } else {
          tail := null;
        }
        count := count - 1;
        Contents := Contents[1..];
        forall i | 0 <= i < |Contents| ensures Linked(i) { assert old(Linked(i + 1)); }
      }
    }

    /** Unlinks the `k`th task. */
    method Delete(node: Task, ghost k: nat)
      requires Valid() && k < |Contents| && Contents[k] == node
      modifies this, Contents
      ensures Valid() && Contents == old(Contents)[..k] + old(Contents)[k + 1..]
      ensures node.prev == null && node.next == null
      ensures forall t :: t in old(Contents) ==> t.state == old(t.state)
    {
      assert Linked(k);
      assert k > 0 ==> Linked(k - 1);
      assert k + 1 < |Contents| ==> Linked(k + 1);
      if node.prev != null && node.next != null {
        node.prev.next := node.next;
        node.next.prev := node.prev;
        node.next := null;
        node.prev := null;
      } else if node.prev == null && node.next != null {
        head := node.next;
        node.next.prev := null;
        node.next := null;
      } else if node.prev != null && node.next == null {
        tail := node.prev;
        node.prev.next := null;
        node.prev := null;
      } else {
        head, tail := null, null;
      }
      count := count - 1;
      Contents := Contents[..k] + Contents[k + 1..];
      forall i | 0 <= i < |Contents| ensures Linked(i) {
        if i < k { assert old(Linked(i)); } else { assert old(Linked(i + 1)); }
      }
    }
  }
}
