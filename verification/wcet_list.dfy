/**
 The daemon's table of worst-case execution times of one NPU OS: a linked list of
 ranges per network, and the waiting-time bookkeeping around it.
 */
module WcetList {

  const NETWORKS := 256

  /** Network, first partition, number of further partitions. */
  datatype Key = Key(nnid: nat, start: int, delta: int)

  class Qnode {
    var prev: Qnode?
    var next: Qnode?
    const key: Key
    var wcet: real

    constructor (k: Key, t: real)
      ensures key == k && wcet == t
    {
      prev, next, key, wcet := null, null, k, t;
    }
  }

  class Queue {
    var head: Qnode?
    var tail: Qnode?
    var count: int
    ghost var Contents: seq<Qnode>

    /** A well-formed list of nodes for network `nnid`, no two with the same key. */
    ghost predicate Valid(nnid: nat)
      reads this, Contents`prev, Contents`next
    {
      && count == |Contents|
      && (forall i, j :: 0 <= i < j < |Contents| ==> Contents[i].key != Contents[j].key)
      && (forall i :: 0 <= i < |Contents| ==> Linked(i))
      && (forall i :: 0 <= i < |Contents| ==> Contents[i].key.nnid == nnid)
      && head == (if Contents == [] then null else Contents[0])
      && tail == (if Contents == [] then null else Contents[|Contents| - 1])
    }

    ghost predicate Linked(i: nat)
      requires i < |Contents|
      reads this, Contents`prev, Contents`next
    {
      && Contents[i].prev == (if i == 0 then null else Contents[i - 1])
      && Contents[i].next == (if i == |Contents| - 1 then null else Contents[i + 1])
    }

    constructor ()
      ensures Contents == [] && forall n :: Valid(n)
    {
      head, tail, count, Contents := null, null, 0, [];
    }

    method Push(node: Qnode)
      requires Valid(node.key.nnid) && forall i :: 0 <= i < |Contents| ==> Contents[i].key != node.key
      modifies this, node`prev, node`next, Contents`next
      ensures Valid(node.key.nnid) && Contents == old(Contents) + [node]
    {
      if head == null {
        head := node;
        tail := node;
        node.prev := null;
        node.next := null;
      } else {
        assert Linked(|Contents| - 1);
        node.prev := tail;
        node.next := null;
        tail.next := node;
        tail := node;
      }
      count := count + 1;
      Contents := Contents + [node];
      forall i | 0 <= i < |Contents| ensures Linked(i) {
        if i < |old(Contents)| { assert old(Linked(i)); }
      }
    }

    method Search(ghost nnid: nat, start: int, delta: int) returns (p: Qnode?)
      requires Valid(nnid)
      ensures p != null ==> p in Contents && p.key == Key(nnid, start, delta)
      ensures p == null ==> forall i :: 0 <= i < |Contents| ==> Contents[i].key != Key(nnid, start, delta)
    {
      p := head;
      ghost var k := 0;
      while p != null
        invariant 0 <= k <= |Contents| && p == (if k == |Contents| then null else Contents[k])
        invariant forall i :: 0 <= i < k ==> Contents[i].key != Key(nnid, start, delta)
        decreases |Contents| - k
      {
        assert Linked(k);
        if p.key.start == start && p.key.delta == delta { return; }
        p := p.next;
        k := k + 1;
      }
    }
  }

  ghost predicate HasKey(nodes: seq<Qnode>, k: Key) {
    exists i :: 0 <= i < |nodes| && nodes[i].key == k
  }

  lemma KeysGrow(nodes: seq<Qnode>, node: Qnode)
    ensures forall k :: HasKey(nodes, k) || k == node.key ==> HasKey(nodes + [node], k)
  {
    var more := nodes + [node];
    assert more[|nodes|].key == node.key;
    forall k | HasKey(nodes, k) ensures HasKey(more, k) {
      var i :| 0 <= i < |nodes| && nodes[i].key == k;
      assert more[i].key == k;
    }
  }

  // ----- the table as a map

  function Raised(table: map<Key, real>, k: Key, t: real): map<Key, real> {
    if k in table && table[k] >= t then table else table[k := t]
  }

  function Lookup(table: map<Key, real>, k: Key): real {
    if k in table then table[k] else 0.0
  }

  datatype Report = Report(key: Key, time: real)

  /** The table after these reports. */
  function TableOf(reports: seq<Report>): map<Key, real> {
    if reports == [] then map[]
    else var r := reports[|reports| - 1]; Raised(TableOf(reports[..|reports| - 1]), r.key, r.time)
  }

  /** The table holds, for every key that was ever reported, the greatest time reported for it. */
  lemma {:induction false} TableHoldsMaximum(reports: seq<Report>, k: Key)
    ensures k in TableOf(reports) <==> exists i :: 0 <= i < |reports| && reports[i].key == k
    ensures k in TableOf(reports) ==> Report(k, TableOf(reports)[k]) in reports
    ensures forall i :: 0 <= i < |reports| && reports[i].key == k ==> reports[i].time <= Lookup(TableOf(reports), k)
  {
    if reports != [] {
      var n := |reports| - 1;
      TableHoldsMaximum(reports[..n], k);
      assert reports == reports[..n] + [reports[n]];
      if k in TableOf(reports[..n]) {
        var i :| 0 <= i < n && reports[..n][i].key == k;
        assert reports[i].key == k;
      }
    }
  }

  class ServerNpuOS {
    const q: array<Queue?>
    var ewt: real
    var ntasks: int
    ghost var Table: map<Key, real>
    ghost var Queues: set<Queue>
    ghost var Nodes: set<Qnode>

    ghost predicate Valid()
      reads this`Table, this`Queues, this`Nodes, q, Queues, Nodes
    {
      && q.Length == NETWORKS
      && (forall n :: 0 <= n < NETWORKS ==> ListOk(n))
      && (forall n, m :: 0 <= n < m < NETWORKS && q[n] != null ==> q[n] != q[m])
    }

    /** The list of network `n` holds exactly the table's entries for `n`. */
    ghost predicate ListOk(n: nat)
      requires n < NETWORKS == q.Length
      reads this`Table, this`Queues, this`Nodes, q, Queues, Nodes
    {
      if q[n] == null then forall k :: k in Table ==> k.nnid != n
      else
        && q[n] in Queues
        && (forall i :: 0 <= i < |q[n].Contents| ==> NodeOk(q[n].Contents[i]))
        && q[n].Valid(n)
        && forall k :: k in Table && k.nnid == n ==> HasKey(q[n].Contents, k)
    }

    ghost predicate NodeOk(p: Qnode)
      reads this`Table, this`Nodes, Nodes
    {
      p in Nodes && p.key in Table && Table[p.key] == p.wcet
    }

    constructor ()
      ensures q.Length == 256 && Valid() && fresh(q) && fresh(Queues) && fresh(Nodes)
      ensures Table == map[] && ewt == 0.0 && ntasks == 0
    {
      q := new Queue?[NETWORKS](_ => null);
      ewt, ntasks, Table, Queues, Nodes := 0.0, 0, map[], {}, {};
    }

    method GetWcet(nnid: nat, start: int, delta: int) returns (t: real)
      requires Valid() && nnid < NETWORKS
      ensures t == Lookup(Table, Key(nnid, start, delta))
    {
      assert ListOk(nnid);
      if q[nnid] == null { return 0.0; }
      var node := q[nnid].Search(nnid, start, delta);
      if node == null {
        t := 0.0;
      } else {
        t := node.wcet;
        assert NodeOk(node);
      }
    }

    /** Records a reported time: the entry becomes the greater of the two, or is created. */
    method UpdateWcet(nnid: nat, start: int, delta: int, new_wcet: real)
      requires Valid() && nnid < NETWORKS
      modifies this`Table, this`Queues, this`Nodes, q, Queues, Nodes
      ensures Valid() && fresh(Queues - old(Queues)) && fresh(Nodes - old(Nodes))
      ensures Table == Raised(old(Table), Key(nnid, start, delta), new_wcet)
    {
      assert q.Length == NETWORKS;
      hide HasKey, Valid, ListOk, NodeOk, Queue.Valid;
      var list := GetList(nnid);
      ListValid(nnid);
      var node := list.Search(nnid, start, delta);
      if node == null {
        NoEntry(nnid, Key(nnid, start, delta));
        node := new Qnode(Key(nnid, start, delta), new_wcet);
        AddNode(nnid, list, node);
      } else {
        Entry(nnid, node);
        if node.wcet < new_wcet {
          RaiseNode(node, new_wcet);
        }
      }
    }

    lemma ListValid(nnid: nat)
      requires Valid() && nnid < NETWORKS && q.Length == NETWORKS && q[nnid] != null
      ensures q[nnid].Valid(nnid)
    {
      assert ListOk(nnid);
    }

    /** A key that no node of its list has is not in the table. */
    lemma NoEntry(nnid: nat, key: Key)
      requires Valid() && key.nnid == nnid < NETWORKS && q.Length == NETWORKS && q[nnid] != null
      requires forall i :: 0 <= i < |q[nnid].Contents| ==> q[nnid].Contents[i].key != key
      ensures key !in Table
    {
      assert ListOk(nnid);
    }

    /** A node of a list holds the table's entry. */
    lemma Entry(nnid: nat, node: Qnode)
      requires Valid() && nnid < NETWORKS && q.Length == NETWORKS && q[nnid] != null && node in q[nnid].Contents
      ensures NodeOk(node) && node.key.nnid == nnid && node.key in Table && Table[node.key] == node.wcet
    {
      assert ListOk(nnid);
    }

    method GetList(nnid: nat) returns (list: Queue)
      requires Valid() && nnid < NETWORKS
      modifies this`Queues, q
      ensures Valid() && q[nnid] == list && fresh(Queues - old(Queues)) && Queues >= old(Queues)
    {
      hide HasKey;
      assert ListOk(nnid);
      if q[nnid] == null {
        list := new Queue();
        q[nnid] := list;
        Queues := Queues + {list};
      } else {
        list := q[nnid];
      }
      forall n | 0 <= n < NETWORKS ensures ListOk(n) { assert old(ListOk(n)); }
    }

    /** No node is in two lists. */
    lemma Apart(nnid: nat, n: nat)
      requires Valid() && nnid < NETWORKS && n < NETWORKS && n != nnid && q.Length == NETWORKS
      requires q[nnid] != null && q[n] != null
      ensures forall i :: 0 <= i < |q[n].Contents| ==> q[n].Contents[i] !in q[nnid].Contents
    {
      assert ListOk(nnid) && ListOk(n);
    }

    method AddNode(nnid: nat, list: Queue, node: Qnode)
      requires Valid() && nnid < NETWORKS && q[nnid] == list && node.key.nnid == nnid && node.key !in Table
               && node !in Nodes
      modifies this`Table, this`Nodes, Queues, Nodes, node
      ensures Valid() && Nodes == old(Nodes) + {node} && Table == old(Table)[node.key := node.wcet]
              && node.wcet == old(node.wcet)
    {
      hide HasKey, Queue.Valid;
      assert ListOk(nnid);
      assert forall i :: 0 <= i < |list.Contents| ==> NodeOk(list.Contents[i]);
      forall n | 0 <= n < NETWORKS && n != nnid && q[n] != null
        ensures forall i :: 0 <= i < |q[n].Contents| ==> q[n].Contents[i] !in list.Contents
      {
        Apart(nnid, n);
      }
      list.Push(node);
      Nodes := Nodes + {node};
      Table := Table[node.key := node.wcet];
      KeysGrow(old(list.Contents), node);
      forall n | 0 <= n < NETWORKS ensures ListOk(n) {
        assert old(ListOk(n));
        if n != nnid && q[n] != null {
          forall i | 0 <= i < |q[n].Contents| ensures NodeOk(q[n].Contents[i]) { assert old(NodeOk(q[n].Contents[i])); }
        }
      }
    }

    method RaiseNode(node: Qnode, t: real)
      requires Valid() && NodeOk(node) && node.key.nnid < NETWORKS
      requires q[node.key.nnid] != null && node in q[node.key.nnid].Contents
      modifies this`Table, Nodes`wcet
      ensures Valid() && Table == old(Table)[node.key := t]
    {
      hide HasKey;
      node.wcet := t;
      Table := Table[node.key := t];
      assert ListOk(node.key.nnid) by { assert old(ListOk(node.key.nnid)); }
      forall n | 0 <= n < NETWORKS ensures ListOk(n) {
        assert old(ListOk(n));
        if q[n] != null {
          forall i | 0 <= i < |q[n].Contents| ensures NodeOk(q[n].Contents[i]) { assert old(NodeOk(q[n].Contents[i])); }
        }
      }
    }
  }
}
