/**
 The run loop of an NPU OS on the ready queues themselves: each of its steps
 carries out the step of the state machine of the same name.
 */
module NpuOs {
  import opened Basics
  import opened ReadySpec
  import opened TaskQueue
  import opened OsScheduler
  import Executor

  /** The tasks with these submission numbers. */
  ghost predicate Names(q: seq<nat>, tasks: seq<Task>, all: seq<Task>) {
    |q| == |tasks| && forall i :: 0 <= i < |q| ==> q[i] < |all| && tasks[i] == all[q[i]]
  }

  ghost predicate AllNamed(qs: seq<seq<nat>>, queues: seq<seq<Task>>, all: seq<Task>) {
    |qs| == |queues| && forall p :: 0 <= p < |qs| ==> Names(qs[p], queues[p], all)
  }

  ghost predicate Distinct(all: seq<Task>) {
    forall i, j :: 0 <= i < j < |all| ==> all[i] != all[j]
  }

  /** The highest of the numbers is the number of the highest task. */
  lemma SameHighest(qs: seq<seq<nat>>, queues: seq<seq<Task>>, all: seq<Task>)
    requires AllNamed(qs, queues, all)
    ensures match Highest(qs)
            case None => Highest(queues) == None
            case Some(t) => t < |all| && Highest(queues) == Some(all[t])
  {
    var p, h := TopPriority(qs, |qs|), TopPriority(queues, |queues|);
    assert p >= 0 ==> Names(qs[p], queues[p], all);
    assert h >= 0 ==> Names(qs[h], queues[h], all);
  }

  /** Submitting a task gives it the next number. */
  lemma NamedPush(qs: seq<seq<nat>>, queues: seq<seq<Task>>, all: seq<Task>, p: nat, task: Task)
    requires AllNamed(qs, queues, all) && p < |qs|
    ensures AllNamed(Push(qs, p, |all|), Push(queues, p, task), all + [task])
  {
    forall r | 0 <= r < |qs| ensures Names(Push(qs, p, |all|)[r], Push(queues, p, task)[r], all + [task]) {
      assert Names(qs[r], queues[r], all);
    }
  }

  /** Removing a task from its queue removes its number. */
  lemma NamedRemove(qs: seq<seq<nat>>, queues: seq<seq<Task>>, all: seq<Task>, p: nat, t: nat)
    requires AllNamed(qs, queues, all) && p < |qs| && t < |all| && t in qs[p] && Distinct(all)
    requires forall i, j :: 0 <= i < j < |qs[p]| ==> qs[p][i] != qs[p][j]
    ensures all[t] in queues[p] && AllNamed(Remove(qs, p, t), Remove(queues, p, all[t]), all)
  {
    hide Without;
    var q, tasks := qs[p], queues[p];
    assert Names(q, tasks, all);
    var k :| 0 <= k < |q| && q[k] == t;
    assert tasks[k] == all[t];
    WithoutAt(q, k);
    WithoutAt(tasks, k);
    forall r | 0 <= r < |qs| ensures Names(Remove(qs, p, t)[r], Remove(queues, p, all[t])[r], all) {
      assert Names(qs[r], queues[r], all);
    }
  }

  class NpuOS {
    const sched: OsSched
    const idle: Task
    var current: Task?
    var ntasks: int
    var shutdown: bool
    ghost var Submitted: seq<Task>  // every task ever submitted, in order

    /** The object is in this state of the state machine; `ntasks` counts what is queued besides the idle task. */
    ghost predicate Keeps(s: Executor.State)
      reads this, sched
    {
      && |Submitted| == |s.prio| && Submitted != [] && Submitted[0] == idle && Distinct(Submitted)
      && (forall t :: 0 <= t < |Submitted| ==> Submitted[t].priority == s.prio[t])
      && AllNamed(s.queues, sched.Ready, Submitted)
      && (match s.current case None => current == null case Some(t) => t < |Submitted| && current == Submitted[t])
      && ntasks == |s.prio| - 1 - |s.finished|
      && (match s.phase
          case Looping => !shutdown
          case Halted => shutdown
          case Running(t) => t == Executor.IDLE ==> !shutdown)
    }

    /** Creates the scheduler and submits the idle task. */
    constructor ()
      ensures fresh(sched) && fresh(sched.ready_queue) && fresh(sched.Tasks) && fresh(sched.ready_table)
      ensures sched.Valid() && Keeps(Executor.Init())
    {
      var queues := new OsSched();
      var task := new Task(0);
      sched, idle := queues, task;
      current, ntasks, shutdown := null, 0, false;
      Submitted := [task];
      new;
      sched.QPush(idle);
    }

    /** The handler thread submits a new task. */
    method Submit(task: Task, ghost s: Executor.State)
      requires sched.Valid() && Executor.Inv(s) && Keeps(s)
      requires task.priority < PRIORITIES && task !in Submitted
      modifies this`ntasks, this`Submitted, sched, sched.ready_queue, sched.Tasks, sched.ready_table, task
      ensures sched.Valid() && Keeps(Executor.After(s, Executor.Submit(task.priority)))
      ensures Submitted == old(Submitted) + [task]
    {
      assert Names(s.queues[task.priority], sched.Ready[task.priority], Submitted);
      NamedPush(s.queues, sched.Ready, Submitted, task.priority, task);
      sched.QPush(task);
      Submitted := Submitted + [task];
      ntasks := ntasks + 1;
    }

    /** One turn of the run loop, up to the start of the task. */
    method Pick(ghost s: Executor.State) returns (started: Task?)
      requires sched.Valid() && Executor.Inv(s) && Keeps(s) && s.phase == Executor.Looping
      modifies this`current, sched.Tasks`state
      ensures sched.Valid()
      ensures started != null <==> Executor.Enabled(s, Executor.Pick)
      ensures started != null <==> old(current) != sched.highest
      ensures started != null ==> started == current == sched.highest && started.state == TaskState.Running
      ensures Keeps(if started == null then s else Executor.After(s, Executor.Pick))
    {
      hide TopPriority, Push, Without, Names;
      SameHighest(s.queues, sched.Ready, Submitted);
      started := null;
      if current != sched.highest {
        current := sched.highest;
        started := current;
        InTasks(started);
        started.state := TaskState.Running;
      }
    }

    lemma InTasks(task: Task)
      requires sched.Valid() && sched.highest == task
      ensures task in sched.Tasks
    {
      var h := TopPriority(sched.Ready, |sched.Ready|);
      assert sched.QueueOk(h);
      assert sched.Ready[h][0] == task;
    }

    /** The condition on which the idle task returns. */
    method IdleLeaves(ghost s: Executor.State) returns (leaves: bool)
      requires sched.Valid() && Executor.Inv(s) && Keeps(s) && s.phase == Executor.Running(Executor.IDLE)
      ensures leaves <==> Executor.Enabled(s, Executor.Wake)
      ensures leaves <==> sched.highest != current || shutdown
    {
      SameHighest(s.queues, sched.Ready, Submitted);
      leaves := !(sched.highest == current && !shutdown);
    }

    /** What the super task does while it runs. */
    method SuperTask(ghost s: Executor.State)
      requires Keeps(s) && s.phase.Running? && s.phase.t != Executor.IDLE
      modifies this`shutdown
      ensures Keeps(s) && shutdown
    {
      shutdown := true;
    }

    /** The rest of the turn, once the task has returned. */
    method Return(ghost s: Executor.State)
      requires sched.Valid() && Executor.Inv(s) && Keeps(s) && s.phase.Running?
      requires s.phase.t == Executor.IDLE ==> Executor.Enabled(s, Executor.Wake)
      modifies this`ntasks, sched, sched.ready_queue, sched.Tasks, sched.ready_table
      ensures sched.Valid()
      ensures Keeps(Executor.After(s, if s.phase.t == Executor.IDLE then Executor.Wake else Executor.Return(shutdown)))
    {
      if current != idle {
        NamedRemove(s.queues, sched.Ready, Submitted, s.prio[s.phase.t], s.phase.t);
        sched.QRemove(current);
        ntasks := ntasks - 1;
      }
    }
  }
}
