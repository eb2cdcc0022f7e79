/**
 The level-2 scheduler: 256 ready queues, a two-level bitmap of the non-empty
 ones, and the highest task found by two table lookups.
 */
module OsScheduler {
  import opened Basics
  import opened Bits
  import opened ReadySpec
  import opened TaskQueue

  /** `map_table` */
  function Map(i: nat): uint16
    requires i < 16
  {
    MapFits(i);
    Pow2(i)
  }

  lemma MapFits(i: nat)
    requires i < 16
    ensures Pow2(i) < 0x1_0000
  {
    var n := 16;
    Pow2Mono(i + 1, n);
    Pow2Values(n);
  }

  /** `unmap_table`: entry 0 and entry 1 are 0, and each further value fills twice as many entries as the one before. */
  function Unmap(v: nat): nat
    requires v < 256
  {
    if v < 2 then 0 else if v < 4 then 1 else if v < 8 then 2 else if v < 16 then 3
    else if v < 32 then 4 else if v < 64 then 5 else if v < 128 then 6 else 7
  }

  /** `r` is the greatest set bit of `x`, or 0 if `x` is 0. */
  predicate IsTop(x: nat, r: nat) {
    if x == 0 then r == 0 else r < 16 && Bit(x, r) && forall i: nat :: r < i < 16 ==> !Bit(x, i)
  }

  lemma UnmapIsTop(v: nat)
    requires v < 256
    ensures IsTop(v, Unmap(v)) && Unmap(v) < 8
  {
    if v > 0 {
      var k := Unmap(v);
      assert Pow2(0) == 1 && Pow2(1) == 2 && Pow2(2) == 4 && Pow2(3) == 8 && Pow2(4) == 16;
      assert Pow2(8) == 2 * Pow2(7) == 4 * Pow2(6) == 8 * Pow2(5) == 16 * Pow2(4);
      TopBit(v, k);
    }
  }

  /** The greatest set bit of a 16-bit word, by one lookup in its upper or lower byte. */
  method TopOf(x: uint16) returns (r: nat)
    ensures r < 16 && IsTop(x, r)
  {
    var eight := 8;
    LowShr(x, eight);
    LowBound(x, eight);
    ShlIsMul(Shr(x, eight), eight);
    Pow2Values(eight);
    if Shr(x, 8) != 0 {
      UnmapIsTop(Shr(x, 8));
      r := Unmap(Shr(x, 8)) + 8;
      forall i: nat | 8 <= i < 16 ensures Bit(x, i) == Bit(Shr(x, eight), i - 8) { BitShr(x, eight, i - 8); }
    } else {
      UnmapIsTop(Low(x, 8));
      r := Unmap(Low(x, 8));
    }
  }

  // ----- the bitmaps

  /** Bit `p % 16` of word `p / 16` tells whether queue `p` has a task. */
  predicate BitOk<T>(word: nat, p: nat, q: seq<T>) {
    Bit(word, p % 16) <==> q != []
  }

  predicate GroupOk(group: nat, g: nat, word: nat) {
    word < 0x1_0000 && (Bit(group, g) <==> word != 0)
  }

  /** The words tell which queues, and the group word which words, are not empty. */
  predicate Bitmap<T>(group: nat, table: seq<nat>, qs: seq<seq<T>>)
    requires |table| == 16 && |qs| == PRIORITIES
  {
    && (forall p :: 0 <= p < PRIORITIES ==> BitOk(table[p / 16], p, qs[p]))
    && (forall g :: 0 <= g < 16 ==> GroupOk(group, g, table[g]))
  }

  /** Queues that keep being empty or not need no change of the bitmaps. */
  lemma BitmapSame<T>(group: nat, table: seq<nat>, qs: seq<seq<T>>, p: nat, q: seq<T>)
    requires |table| == 16 && |qs| == PRIORITIES && p < PRIORITIES && Bitmap(group, table, qs)
    requires qs[p] == [] <==> q == []
    ensures Bitmap(group, table, qs[p := q])
  {
    forall r | 0 <= r < PRIORITIES ensures BitOk(table[r / 16], r, qs[p := q][r]) {
      assert BitOk(table[r / 16], r, qs[r]);
    }
  }

  lemma BitmapSet<T>(group: nat, table: seq<nat>, qs: seq<seq<T>>, p: nat, q: seq<T>)
    requires |table| == 16 && |qs| == PRIORITIES && p < PRIORITIES && Bitmap(group, table, qs) && q != []
    requires group < 0x1_0000
    ensures Or(group, Map(p / 16)) < 0x1_0000 && Or(table[p / 16], Map(p % 16)) < 0x1_0000
    ensures Bitmap(Or(group, Map(p / 16)), table[p / 16 := Or(table[p / 16], Map(p % 16))], qs[p := q])
  {
    hide Or;
    var n := 16;
    Pow2Values(n);
    var word := table[p / 16];
    assert GroupOk(group, p / 16, word);
    SetBit(group, p / 16, n);
    SetBit(word, p % 16, n);
    var table' := table[p / 16 := Or(word, Map(p % 16))];
    assert Bit(word, p % 16) || !Bit(word, p % 16);
    BitZero(p % 16);
    forall r | 0 <= r < PRIORITIES ensures BitOk(table'[r / 16], r, qs[p := q][r]) {
      assert BitOk(table[r / 16], r, qs[r]);
      assert Bit(word, r % 16) || !Bit(word, r % 16);
    }
    forall g | 0 <= g < 16 ensures GroupOk(Or(group, Map(p / 16)), g, table'[g]) {
      assert GroupOk(group, g, table[g]);
    }
  }

  lemma BitmapClear<T>(group: nat, table: seq<nat>, qs: seq<seq<T>>, p: nat)
    requires |table| == 16 && |qs| == PRIORITIES && p < PRIORITIES && Bitmap(group, table, qs)
    ensures var word := AndNot(table[p / 16], Map(p % 16));
            && word <= table[p / 16] && AndNot(group, Map(p / 16)) <= group
            && Bitmap(if word == 0 then AndNot(group, Map(p / 16)) else group, table[p / 16 := word], qs[p := []])
  {
    hide AndNot;
    var word := table[p / 16];
    assert GroupOk(group, p / 16, word);
    ClearBit(group, p / 16);
    ClearBit(word, p % 16);
    var word' := AndNot(word, Map(p % 16));
    var table' := table[p / 16 := word'];
    var group' := if word' == 0 then AndNot(group, Map(p / 16)) else group;
    forall r | 0 <= r < PRIORITIES ensures BitOk(table'[r / 16], r, qs[p := []][r]) {
      assert BitOk(table[r / 16], r, qs[r]);
      assert Bit(word, r % 16) || !Bit(word, r % 16);
    }
    BitZero(p / 16);
    forall g | 0 <= g < 16 ensures GroupOk(group', g, table'[g]) {
      assert GroupOk(group, g, table[g]);
      assert Bit(group, g) || !Bit(group, g);
    }
  }

  /** Two lookups find the greatest priority that has a task. */
  lemma TopOfBitmap<T>(group: nat, table: seq<nat>, qs: seq<seq<T>>, y: nat, x: nat)
    requires |table| == 16 && |qs| == PRIORITIES && Bitmap(group, table, qs) && group < 0x1_0000
    requires y < 16 && x < 16 && IsTop(group, y) && IsTop(table[y], x)
    ensures Highest(qs) == if qs[y * 16 + x] == [] then None else Some(qs[y * 16 + x][0])
  {
    var top := TopPriority(qs, PRIORITIES);
    var prio := y * 16 + x;
    assert prio / 16 == y && prio % 16 == x;
    assert BitOk(table[y], prio, qs[prio]) && GroupOk(group, y, table[y]);
    BitZero(x);
    BitZero(y);
    forall p | 0 <= p < PRIORITIES && (group == 0 || prio < p) ensures qs[p] == [] {
      assert BitOk(table[p / 16], p, qs[p]) && GroupOk(group, p / 16, table[p / 16]);
      BitZero(p % 16);
      BitZero(p / 16);
    }
  }

  class OsSched {
    var highest: Task?
    var ready_group: uint16
    const ready_table: array<uint16>
    const ready_queue: seq<Queue>     // embedded structs: their identities are fixed
    ghost var Ready: seq<seq<Task>>   // what the linked lists stand for
    ghost var Tasks: set<Task>

    /** Queue `p` is the well-formed list `Ready[p]` of tasks of priority `p`. */
    ghost predicate QueueOk(p: nat)
      requires p < PRIORITIES == |ready_queue| == |Ready|
      reads this`Ready, this`Tasks, ready_queue, Tasks`prev, Tasks`next
    {
      && ready_queue[p].Contents == Ready[p]
      && (forall i :: 0 <= i < |Ready[p]| ==> Ready[p][i] in Tasks && Ready[p][i].priority == p)
      && ready_queue[p].Valid()
    }

    ghost predicate Lists()
      reads this`Ready, this`Tasks, ready_queue, Tasks`prev, Tasks`next
    {
      && |ready_queue| == |Ready| == PRIORITIES
      && (forall p, q :: 0 <= p < q < PRIORITIES ==> ready_queue[p] != ready_queue[q])
      && (forall p :: 0 <= p < PRIORITIES ==> QueueOk(p))
    }

    ghost predicate Bits()
      requires |Ready| == PRIORITIES
      reads this`ready_group, this`Ready, ready_table
    {
      ready_table.Length == 16 && Bitmap(ready_group, ready_table[..], Ready)
    }

    ghost predicate Valid()
      reads this, ready_queue, Tasks, ready_table
    {
      Lists() && Bits() && highest == TaskOf(Highest(Ready))
    }

    constructor ()
      ensures Valid() && fresh(ready_queue) && fresh(ready_table) && Tasks == {} && Ready == seq(PRIORITIES, _ => [])
    {
      var queues := NewQueues();
      highest, ready_group, ready_queue := null, 0, queues;
      ready_table := new uint16[16](_ => 0);
      Ready := seq(PRIORITIES, _ => []);
      Tasks := {};
      new;
      forall i: nat ensures !Bit(0, i) { BitZero(i); }
      assert TopPriority(Ready, PRIORITIES) == -1;
    }

    static method NewQueues() returns (queues: seq<Queue>)
      ensures |queues| == PRIORITIES
      ensures forall j :: 0 <= j < PRIORITIES ==> fresh(queues[j]) && queues[j].Valid() && queues[j].Contents == []
      ensures forall j, k :: 0 <= j < k < PRIORITIES ==> queues[j] != queues[k]
    {
      queues := [];
      for i := 0 to PRIORITIES
        invariant |queues| == i
        invariant forall j :: 0 <= j < i ==> fresh(queues[j]) && queues[j].Valid() && queues[j].Contents == []
        invariant forall j, k :: 0 <= j < k < i ==> queues[j] != queues[k]
      {
        var q := new Queue();
        queues := queues + [q];
      }
    }

    /** Finds the highest task in the bitmaps. */
    method CalHighestTask()
      requires Lists() && Bits()
      modifies this`highest
      ensures Valid()
    {
      var y := TopOf(ready_group);
      var x := TopOf(ready_table[y]);
      TopOfBitmap(ready_group, ready_table[..], Ready, y, x);
      assert QueueOk(y * 16 + x);
      highest := ready_queue[y * 16 + x].head;
    }

    /** Appends a task to the queue of its priority. */
    method QPush(task: Task)
      requires Valid() && task.priority < PRIORITIES && task !in Ready[task.priority]
      modifies this, ready_queue, Tasks, ready_table, task
      ensures Valid() && Tasks == old(Tasks) + {task}
      ensures Ready == Push(old(Ready), task.priority, task)
      ensures task.state == TaskState.Ready
    {
      var prio := task.priority;
      assert QueueOk(prio);
      var empty := ready_queue[prio].IsEmpty();
      MarkReady(prio, task, empty);
      Enqueue(prio, task);
      task.state := TaskState.Ready;
      CalHighestTask();
    }

    /** Sets the bits of a queue that is about to get its first task. */
    method MarkReady(prio: nat, ghost task: Task, empty: bool)
      requires prio < PRIORITIES == |Ready| && Bits() && (empty <==> Ready[prio] == [])
      modifies this`ready_group, ready_table
      ensures ready_table.Length == 16 && Bitmap(ready_group, ready_table[..], Push(Ready, prio, task))
    {
      if empty {
        BitmapSet(ready_group, ready_table[..], Ready, prio, Ready[prio] + [task]);
        ready_group := Or(ready_group, Map(prio / 16));
        ready_table[prio / 16] := Or(ready_table[prio / 16], Map(prio % 16));
      } else {
        BitmapSame(ready_group, ready_table[..], Ready, prio, Ready[prio] + [task]);
      }
    }

    method Enqueue(prio: nat, task: Task)
      requires Lists() && task.priority == prio < PRIORITIES && task !in Ready[prio]
      modifies this`Ready, this`Tasks, ready_queue, Tasks, task
      ensures Lists() && Ready == Push(old(Ready), prio, task) && Tasks == old(Tasks) + {task}
    {
      var q := ready_queue[prio];
      assert QueueOk(prio);
      q.Push(task);
      Tasks := Tasks + {task};
      Ready := Push(Ready, prio, task);
      forall p | 0 <= p < PRIORITIES ensures QueueOk(p) { assert old(QueueOk(p)); }
    }

    /** Takes a task out of the queue of its priority. */
    method QRemove(task: Task)
      requires Valid() && task.priority < PRIORITIES && task in Ready[task.priority]
      modifies this, ready_queue, Tasks, ready_table
      ensures Valid() && Tasks == old(Tasks)
      ensures Ready == Remove(old(Ready), task.priority, task)
      ensures task.state == TaskState.Dormant && task.prev == null && task.next == null
    {
      hide Without, Bitmap, Highest, TopPriority;
      TakeOut(task);
      task.state := TaskState.Dormant;
      CalHighestTask();
    }

    /** Unlinks the task and clears the bits that its queue no longer justifies. */
    method TakeOut(task: Task)
      requires Lists() && Bits() && task.priority < PRIORITIES && task in Ready[task.priority]
      modifies this`Ready, this`ready_group, ready_queue, Tasks, ready_table
      ensures Lists() && Bits() && Ready == Remove(old(Ready), task.priority, task)
      ensures task.prev == null && task.next == null && task in Tasks
    {
      var prio := task.priority;
      hide Without, Bitmap, Highest, TopPriority;
      assert QueueOk(prio);
      ghost var k :| 0 <= k < |Ready[prio]| && Ready[prio][k] == task;
      Dequeue(prio, task, k);
      assert QueueOk(prio);
      var empty := ready_queue[prio].IsEmpty();
      MarkRemoved(prio, empty, old(Ready));
    }

    method Dequeue(prio: nat, task: Task, ghost k: nat)
      requires Lists() && task.priority == prio < PRIORITIES && k < |Ready[prio]| && Ready[prio][k] == task
      modifies this`Ready, ready_queue, Tasks
      ensures Lists() && Ready == Remove(old(Ready), prio, task)
      ensures task.prev == null && task.next == null
    {
      hide Without;
      assert QueueOk(prio);
      WithoutAt(Ready[prio], k);
      ready_queue[prio].Delete(task, k);
      Ready := Remove(Ready, prio, task);
      forall p | 0 <= p < PRIORITIES ensures QueueOk(p) { assert old(QueueOk(p)); }
    }

    /** Clears the bits of a queue that has lost its last task. */
    method MarkRemoved(prio: nat, empty: bool, ghost before: seq<seq<Task>>)
      requires prio < PRIORITIES == |Ready| == |before| && ready_table.Length == 16
      requires Bitmap(ready_group, ready_table[..], before) && before[prio] != []
               && Ready == before[prio := Ready[prio]]
      requires empty <==> Ready[prio] == []
      modifies this`ready_group, ready_table
      ensures Bits()
    {
      if empty {
        BitmapClear(ready_group, ready_table[..], before, prio);
        ready_table[prio / 16] := AndNot(ready_table[prio / 16], Map(prio % 16));
        if ready_table[prio / 16] == 0 {
          ready_group := AndNot(ready_group, Map(prio / 16));
        }
      } else {
        BitmapSame(ready_group, ready_table[..], before, prio, Ready[prio]);
      }
    }
  }

  function TaskOf(o: Option<Task>): Task? {
    if o.None? then null else o.value
  }
}
