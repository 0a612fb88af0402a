/**
  * The `nextTick` task queue (bundle module 65).  Tasks are numbered in the order in which they
  * are enqueued.  A task may enqueue more tasks and may throw; a timer armed before draining
  * then resumes the queue.
  */
module TickQueue {
  import opened Options

  /** What running a task does: enqueue so many tasks, then return or throw. */
  datatype Behaviour = Behaviour(spawns: nat, throws: bool)

  /** How a drain ended; `Cut` is a run observed only up to some task. */
  datatype Ending = Finished | Threw | Cut

  /** What happens to the queue from outside. */
  datatype Event = Enqueue | DrainTimer | RecoveryTimer

  /** The numbers from `lo` up to `hi`. */
  function Range(lo: nat, hi: nat): (r: seq<nat>)
    requires lo <= hi
    ensures |r| == hi - lo
    ensures forall i | 0 <= i < |r| :: r[i] == lo + i
  {
    seq(hi - lo, i requires 0 <= i => lo + i)
  }

  class Queue {
    /** The waiting tasks, whether a drain is under way, its batch, and the index of the current task. */
    var waiting: seq<nat>
    var draining: bool
    var batch: Option<seq<nat>>
    var index: int
    /** Pending timers for the drain and for the recovery. */
    var drainTimers: nat
    var recoveryTimers: nat
    /** Number of tasks enqueued so far, and the tasks started, in order. */
    var total: nat
    var started: seq<nat>

    /** Started tasks, then `rest`, then waiting ones: exactly the enqueued tasks, in order. */
    ghost predicate InOrder(rest: seq<nat>)
      reads this
    {
      |started| <= total && started == Range(0, |started|) && rest + waiting == Range(|started|, total)
    }

    /** Not draining: a drain is scheduled exactly when tasks wait. */
    ghost predicate Resting()
      reads this
    {
      && !draining && index == -1 && InOrder([])
      && recoveryTimers == 0 && drainTimers == if waiting == [] then 0 else 1
    }

    /** A task threw: the batch and the index are kept, and the recovery is pending. */
    ghost predicate Broken()
      reads this
    {
      && draining && batch.Some? && 0 <= index < |batch.value| && InOrder(batch.value[index + 1..])
      && recoveryTimers == 1 && drainTimers == 0
    }

    ghost predicate Valid()
      reads this
    {
      Resting() || Broken()
    }

    /** The drain may start: what follows the index is what has not been started. */
    ghost predicate Ready()
      reads this
    {
      && !draining && recoveryTimers == 0 && drainTimers == 0
      && -1 <= index && (index == -1 || index < |waiting|)
      && |started| <= total && started == Range(0, |started|) && waiting[index + 1..] == Range(|started|, total)
    }

    constructor ()
      ensures Resting() && total == 0 && started == []
    {
      waiting, draining, batch, index := [], false, None, -1;
      drainTimers, recoveryTimers, total, started := 0, 0, 0, [];
    }

    method NextTick()
      modifies this`waiting, this`drainTimers, this`total
      ensures waiting == old(waiting) + [old(total)] && total == old(total) + 1
      ensures drainTimers == old(drainTimers) + if old(waiting) == [] && !draining then 1 else 0
    {
      waiting, total := waiting + [total], total + 1;
      if |waiting| == 1 && !draining {
        drainTimers := drainTimers + 1;
      }
    }

    /** Run the task at the current index: log it and enqueue what it enqueues. */
    method RunTask(task: nat, b: Behaviour)
      requires draining
      modifies this`waiting, this`total, this`started, this`drainTimers
      ensures started == old(started) + [task] && total == old(total) + b.spawns
      ensures waiting == old(waiting) + Range(old(total), total) && drainTimers == old(drainTimers)
    {
      started := started + [task];
      for n := 0 to b.spawns
        invariant total == old(total) + n && drainTimers == old(drainTimers) && started == old(started) + [task]
        invariant waiting == old(waiting) + Range(old(total), total)
      {
        NextTick();
        RangeEnd(old(total), total);
      }
    }

    /** Run the rest of the current batch. */
    method RunBatch(act: nat -> Behaviour, budget: nat) returns (ending: Ending, left: nat)
      requires draining && batch.Some? && 0 <= index <= |batch.value| && InOrder(batch.value[index..])
      modifies this`waiting, this`total, this`started, this`drainTimers, this`index
      ensures drainTimers == old(drainTimers) && old(started) <= started && old(total) <= total
      ensures left <= budget && (old(index) < |batch.value| && ending != Cut ==> left < budget)
      ensures ending == Finished ==> index == |batch.value| && InOrder([])
      ensures ending == Threw ==> 0 <= index < |batch.value| && InOrder(batch.value[index + 1..])
      ensures ending == Cut ==> left == 0 && |started| <= total && started == Range(0, |started|)
    {
      left := budget;
      var b := batch.value;
      while index < |b|
        invariant 0 <= index <= |b| && InOrder(b[index..]) && drainTimers == old(drainTimers)
        invariant old(started) <= started && old(total) <= total && old(index) <= index
        invariant left <= budget && (index > old(index) ==> left < budget)
        decreases |b| - index
      {
        if left == 0 {
          return Cut, left;
        }
        left := left - 1;
        TaskStarts(b, index, waiting, |started|, total, act(b[index]).spawns);
        RunTask(b[index], act(b[index]));
        if act(b[index]).throws {
          return Threw, left;
        }
        index := index + 1;
      }
      assert b[index..] == [];
      ending := Finished;
    }

    /** A drain is under way, and what follows the index is what has not been started. */
    ghost predicate Going()
      reads this
    {
      && draining && recoveryTimers == 1 && drainTimers == 0
      && -1 <= index && (index == -1 || index < |waiting|)
      && |started| <= total && started == Range(0, |started|) && waiting[index + 1..] == Range(|started|, total)
    }

    /** Make the waiting tasks the batch and run it from the index on. */
    method NextBatch(act: nat -> Behaviour, budget: nat) returns (ending: Ending, left: nat)
      requires Going() && waiting != []
      modifies this`waiting, this`total, this`started, this`drainTimers, this`index, this`batch
      ensures old(started) <= started && old(total) <= total
      ensures left <= budget && (ending == Finished && old(index) + 1 < old(|waiting|) ==> left < budget)
      ensures ending == Finished ==> Going() && index == -1
      ensures ending == Threw ==> Broken()
      ensures ending == Cut ==> left == 0 && |started| <= total && started == Range(0, |started|)
    {
      hide Range;
      batch, waiting, index := Some(waiting), [], index + 1;
      assert batch.value[index..] + [] == batch.value[index..];
      ending, left := RunBatch(act, budget);
      if ending == Finished {
        assert [] + waiting == waiting == waiting[0..];
        index := -1;
      }
    }

    /** Run batch after batch until nothing waits, a task throws, or `budget` tasks have been started. */
    method Drain(act: nat -> Behaviour, budget: nat) returns (ending: Ending, left: nat)
      requires draining || Ready()
      modifies this
      ensures old(draining) ==> ending == Finished && left == budget && unchanged(this)
      ensures !old(draining) && ending == Finished ==> Resting() && waiting == [] && started == Range(0, total)
      ensures !old(draining) && ending == Threw ==> Broken()
      ensures ending == Cut ==> left == 0 && |started| <= total && started == Range(0, |started|)
      ensures old(started) <= started && old(total) <= total
    {
      hide Range, Broken;
      left := budget;
      if draining {
        return Finished, left;
      }
      recoveryTimers, draining := recoveryTimers + 1, true;
      var e := |waiting|;
      while e != 0
        invariant Going() && e == |waiting| && old(started) <= started && old(total) <= total
        decreases left, index + 1
      {
        ending, left := NextBatch(act, left);
        if ending != Finished {
          return;
        }
        e := |waiting|;
      }
      NothingLeft();
      batch, draining, recoveryTimers := None, false, recoveryTimers - 1;
      ending := Finished;
    }

    lemma NothingLeft()
      requires Going() && waiting == []
      ensures index == -1 && |started| == total && started == Range(0, total) && InOrder([])
    {
      assert [] + waiting == waiting;
    }

    /** A drain was interrupted: what is left of its batch, if anything, follows the index. */
    ghost predicate Interrupted()
      reads this
    {
      && draining && batch.Some? && recoveryTimers == 1 && drainTimers == 0
      && (batch.value != [] ==> 0 <= index < |batch.value|)
      && InOrder(if batch.value == [] then [] else batch.value[index + 1..])
    }

    /** The recovery timer: put the batch back in front and drain on from the index. */
    method CleanUp(act: nat -> Behaviour, budget: nat) returns (ending: Ending, left: nat)
      requires Interrupted()
      modifies this
      ensures ending == Finished ==> Resting() && waiting == [] && started == Range(0, total)
      ensures ending == Threw ==> Broken()
      ensures ending == Cut ==> left == 0 && |started| <= total && started == Range(0, |started|)
      ensures old(started) <= started && old(total) <= total
    {
      recoveryTimers := recoveryTimers - 1;
      draining := false;
      if batch.value != [] {
        Rejoin(batch.value, index, waiting);
        waiting := batch.value + waiting;
      } else {
        index := -1;
        assert [] + waiting == waiting == waiting[0..];
      }
      if waiting != [] {
        ending, left := Drain(act, budget);
      } else {
        assert [] + waiting == waiting;
        ending, left := Finished, budget;
      }
    }

    /** `nextTick` called between events. */
    method EnqueueOne()
      requires Valid()
      modifies this`waiting, this`drainTimers, this`total
      ensures Valid() && total == old(total) + 1
    {
      ghost var rest := if draining then batch.value[index + 1..] else [];
      ghost var before := waiting;
      NextTick();
      RangeEnd(|started|, total);
      assert rest + (before + [old(total)]) == (rest + before) + [old(total)];
    }

    /** The drain timer, which is pending only while nothing drains. */
    method OnDrainTimer(act: nat -> Behaviour, budget: nat) returns (ending: Ending, left: nat)
      requires Valid() && drainTimers > 0
      modifies this
      ensures ending != Cut ==> Valid()
      ensures ending == Cut ==> |started| <= total && started == Range(0, |started|)
      ensures old(started) <= started && old(total) <= total
    {
      assert [] + waiting == waiting == waiting[0..];
      drainTimers := drainTimers - 1;
      ending, left := Drain(act, budget);
    }

    /** The recovery timer, which is pending only after a throw. */
    method OnRecoveryTimer(act: nat -> Behaviour, budget: nat) returns (ending: Ending, left: nat)
      requires Valid() && recoveryTimers > 0
      modifies this
      ensures ending != Cut ==> Valid()
      ensures ending == Cut ==> |started| <= total && started == Range(0, |started|)
      ensures old(started) <= started && old(total) <= total
    {
      ending, left := CleanUp(act, budget);
    }

    /** One outside event; a timer event does something only when its timer is pending. */
    method Handle(act: nat -> Behaviour, event: Event, budget: nat) returns (ending: Ending, left: nat)
      requires Valid()
      modifies this
      ensures ending != Cut ==> Valid()
      ensures ending == Cut ==> |started| <= total && started == Range(0, |started|)
      ensures old(started) <= started && old(total) <= total
    {
      hide *;
      ending, left := Finished, budget;
      match event {
        case Enqueue =>
          EnqueueOne();
        case DrainTimer =>
          if drainTimers > 0 {
            ending, left := OnDrainTimer(act, left);
          }
        case RecoveryTimer =>
          if recoveryTimers > 0 {
            ending, left := OnRecoveryTimer(act, left);
          }
      }
    }

    /** In every run of outside events, with any behaviour of the tasks and observed up to any
        point: the tasks are started in the order they were enqueued, none twice, and none is left
        behind once no timer is pending. */
    method Play(act: nat -> Behaviour, events: seq<Event>, budget: nat) returns (complete: bool)
      requires Valid()
      modifies this
      ensures |started| <= total && started == Range(0, |started|)
      ensures complete ==> Valid()
      ensures complete && drainTimers == 0 && recoveryTimers == 0 ==> started == Range(0, total)
    {
      hide Resting, Broken;
      var left := budget;
      ValidOrder();
      for i := 0 to |events|
        invariant Valid()
      {
        var ending;
        ending, left := Handle(act, events[i], left);
        if ending == Cut {
          return false;
        }
      }
      ValidOrder();
      complete := true;
    }

    /** In a valid state the started tasks are the first ones, and a timer is pending iff tasks remain. */
    lemma ValidOrder()
      requires Valid()
      ensures |started| <= total && started == Range(0, |started|)
      ensures drainTimers + recoveryTimers <= 1
      ensures |started| < total ==> drainTimers + recoveryTimers == 1
    {
      if !draining { assert [] + waiting == waiting; }
    }
  }

  lemma Rejoin(b: seq<nat>, i: nat, waiting: seq<nat>)
    requires i < |b|
    ensures (b + waiting)[i + 1..] == b[i + 1..] + waiting
  {
  }

  lemma RangeEnd(lo: nat, hi: nat)
    requires lo < hi
    ensures Range(lo, hi) == Range(lo, hi - 1) + [hi - 1]
  {
  }

  /** Starting the next task of the batch, which then enqueues `n` more, keeps everything in order. */
  lemma TaskStarts(b: seq<nat>, i: nat, waiting: seq<nat>, done: nat, total: nat, n: nat)
    requires i < |b| && done <= total && b[i..] + waiting == Range(done, total)
    ensures b[i] == done < total
    ensures Range(0, done) + [b[i]] == Range(0, done + 1)
    ensures b[i + 1..] + (waiting + Range(total, total + n)) == Range(done + 1, total + n)
  {
    var all := b[i..] + waiting;
    assert all[0] == b[i];
    assert b[i + 1..] + waiting == all[1..];
    assert b[i + 1..] + (waiting + Range(total, total + n)) == all[1..] + Range(total, total + n);
  }
}
