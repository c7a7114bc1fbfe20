/** The executor object (core/training/executor.py:324-559). Every region that the source runs under
    a lock advances the ghost protocol state by exactly one action of module TrainingProtocol, so all
    that module TrainingProofs proves of interleavings holds of this code. */
module TrainingExecutor {
  import opened Wrappers
  import opened Placement
  import opened TrainingProtocol
  import opened TrainingProofs
  import Vram

  /** What the injected parts do for one job: resolving the command, running it, scanning for a checkpoint. */
  datatype Outcome = Outcome(command: Choice, runner: Choice, scan: Choice)

  class TrainingExecutor {
    const scheduler: Vram.ModelScheduler
    var store: map<JobId, Status>
    var queue: seq<JobId>
    var currentJob: Option<JobId>
    ghost var sys: Sys

    ghost predicate Valid()
      reads this, scheduler, scheduler.models
    {
      && scheduler.Valid()
      && sys.sched == scheduler.View()
      && sys.store == store
      && sys.queue == queue
      && (sys.phase == Idle ==> currentJob == None)
    }

    constructor (scheduler: Vram.ModelScheduler)
      requires scheduler.Valid() && scheduler.View() == Empty(scheduler.budget)
      ensures Valid() && this.scheduler == scheduler && sys == Initial(scheduler.budget)
    {
      this.scheduler := scheduler;
      store, queue, currentJob := map[], [], None;
      sys := Initial(scheduler.budget);
    }

    method Enqueue(job: JobId)
      requires Valid() && Enabled(sys, EnqueueMark(job))
      modifies this`store, this`queue, this`sys
      ensures Valid()
      ensures sys == Step(Step(old(sys), EnqueueMark(job)), EnqueuePut(job))
      ensures store == if job in old(store) then old(store)[job := Queued] else old(store)
      ensures queue == old(queue) + [job] && currentJob == old(currentJob)
    {
      store := SetStatus(store, job, Queued);
      sys := Step(sys, EnqueueMark(job));
      queue := queue + [job];
      sys := Step(sys, EnqueuePut(job));
    }

    /** True when a cancellation was initiated; only a QUEUED job changes its status here. */
    method CancelJob(job: JobId) returns (initiated: bool)
      requires Valid()
      modifies this`store, this`sys
      ensures Valid() && sys == Step(old(sys), Cancel(job))
      ensures initiated <==> job in old(store) && (old(store)[job] == Queued || old(store)[job] == Running)
      ensures job in old(store) && old(store)[job] == Queued ==> store == old(store)[job := Failed]
      ensures !(job in old(store) && old(store)[job] == Queued) ==> store == old(store)
    {
      sys := Step(sys, Cancel(job));
      if job !in store {
        return false;
      }
      if store[job] == Queued {
        store := SetStatus(store, job, Failed);
        return true;
      }
      return store[job] == Running;
    }

    /** Moves to RUNNING, or reports that the job is gone or was cancelled before it started. */
    method MarkRunning(job: JobId) returns (mine: bool)
      requires Valid() && SysInv(sys) && sys.phase == Locked(job)
      modifies this`store, this`sys, this`currentJob
      ensures Valid() && SysInv(sys) && sys == Worker(old(sys), Succeeds)
      ensures sys.phase == if mine then Marked(job) else Releasing(job, false)
    {
      StepKeepsInv(sys, Work(Succeeds));
      sys := Step(sys, Work(Succeeds));
      if job !in store || store[job] != Queued {
        return false;
      }
      store := store[job := Running];
      currentJob := Some(job);
      return true;
    }

    /** Calls an injected part; true when it raises. */
    method CallOut(job: JobId, choice: Choice) returns (raised: bool)
      requires Valid() && SysInv(sys) && (sys.phase == Marked(job) || sys.phase == InRunner(job))
      modifies this`sys
      ensures Valid() && SysInv(sys) && sys == Worker(old(sys), choice)
      ensures raised <==> choice == Raises
    {
      StepKeepsInv(sys, Work(choice));
      sys := Step(sys, Work(choice));
      return choice == Raises;
    }

    method WriteResult(job: JobId, success: bool, scan: Choice) returns (raised: bool)
      requires Valid() && SysInv(sys) && sys.phase == Returned(job, success)
      modifies this`store, this`sys
      ensures Valid() && SysInv(sys) && sys == Worker(old(sys), scan)
      ensures sys.phase == Releasing(job, raised)
    {
      StepKeepsInv(sys, Work(scan));
      sys := Step(sys, Work(scan));
      if success {
        store := SetStatus(store, job, Completed);
      } else {
        if scan == Raises {
          return true;
        }
        store := SetStatus(store, job, Failed);
      }
      return false;
    }

    method EndTraining(job: JobId, crashed: bool)
      requires Valid() && SysInv(sys) && sys.phase == Releasing(job, crashed)
      modifies this`sys, this`currentJob, scheduler`holder
      ensures Valid() && SysInv(sys) && sys == Worker(old(sys), Succeeds) && currentJob == None
    {
      StepKeepsInv(sys, Work(Succeeds));
      scheduler.EndTraining();
      currentJob := None;
      sys := Step(sys, Work(Succeeds));
    }

    method WriteFailed(job: JobId)
      requires Valid() && SysInv(sys) && (sys.phase == Refused(job) || sys.phase == Crashed(job))
      modifies this`store, this`sys, this`currentJob
      ensures Valid() && SysInv(sys) && sys == Worker(old(sys), Succeeds)
    {
      StepKeepsInv(sys, Work(Succeeds));
      store := SetStatus(store, job, Failed);
      currentJob := None;
      sys := Step(sys, Work(Succeeds));
    }

    method TakeLock(job: JobId) returns (active: Result<seq<string>, Error>)
      requires Valid() && SysInv(sys) && sys.phase == Taken(job)
      modifies this`sys, scheduler`holder
      ensures Valid() && SysInv(sys) && sys == Worker(old(sys), Succeeds)
      ensures sys.phase ==
        if active.Err? then Crashed(job) else if active.value != [] then Refused(job) else Locked(job)
    {
      active := scheduler.TryBeginTraining(job);
      StepKeepsInv(sys, Work(Succeeds));
      sys := Step(sys, Work(Succeeds));
    }

    /** The part of _run_job inside its try block; true when an exception leaves it. */
    method RunLocked(job: JobId, outcome: Outcome) returns (crashed: bool, ghost actions: seq<Action>)
      requires Valid() && SysInv(sys) && sys.phase == Locked(job)
      modifies this`store, this`sys, this`currentJob
      ensures Valid() && SysInv(sys) && sys.phase == Releasing(job, crashed)
      ensures Handles(old(sys), sys, job, actions)
      ensures sys.succeeded == old(sys.succeeded) + if Runs(old(sys), job, outcome) then {job} else {}
    {
      ghost var start := sys;
      actions := [Work(Succeeds)];
      HandlesOneMore(start, sys, job, [], Succeeds);
      var mine := MarkRunning(job);
      if !mine {
        return false, actions;
      }
      ghost var marked, more := sys, [];
      crashed, more := RunMarked(job, outcome);
      HandlesOn(start, marked, sys, job, actions, more);
      actions := actions + more;
    }

    /** From RUNNING on: the command, the runner and the result. */
    method RunMarked(job: JobId, outcome: Outcome) returns (crashed: bool, ghost actions: seq<Action>)
      requires Valid() && SysInv(sys) && sys.phase == Marked(job)
      modifies this`store, this`sys
      ensures Valid() && SysInv(sys) && sys.phase == Releasing(job, crashed)
      ensures Handles(old(sys), sys, job, actions)
      ensures sys.succeeded ==
        old(sys.succeeded) + if outcome.command != Raises && outcome.runner == Succeeds then {job} else {}
    {
      ghost var start := sys;
      actions := [Work(outcome.command)];
      HandlesOneMore(start, sys, job, [], outcome.command);
      var raised := CallOut(job, outcome.command);
      if raised {
        return true, actions;
      }
      HandlesOneMore(start, sys, job, actions, outcome.runner);
      actions := actions + [Work(outcome.runner)];
      raised := CallOut(job, outcome.runner);
      if raised {
        return true, actions;
      }
      HandlesOneMore(start, sys, job, actions, outcome.scan);
      actions := actions + [Work(outcome.scan)];
      crashed := WriteResult(job, outcome.runner == Succeeds, outcome.scan);
    }

    /** The locked part with its finally block. */
    method RunAndRelease(job: JobId, outcome: Outcome) returns (crashed: bool, ghost actions: seq<Action>)
      requires Valid() && SysInv(sys) && sys.phase == Locked(job)
      modifies this`store, this`sys, this`currentJob, scheduler`holder
      ensures Valid() && SysInv(sys) && sys.phase == if crashed then Crashed(job) else Idle
      ensures Handles(old(sys), sys, job, actions)
      ensures sys.succeeded == old(sys.succeeded) + if Runs(old(sys), job, outcome) then {job} else {}
    {
      ghost var start := sys;
      crashed, actions := RunLocked(job, outcome);
      HandlesOneMore(start, sys, job, actions, Succeeds);
      actions := actions + [Work(Succeeds)];
      EndTraining(job, crashed);
    }

    method RunJob(job: JobId, outcome: Outcome) returns (crashed: bool, ghost actions: seq<Action>)
      requires Valid() && SysInv(sys) && sys.phase == Taken(job)
      modifies this`store, this`sys, this`currentJob, scheduler`holder
      ensures Valid() && SysInv(sys) && sys.phase == if crashed then Crashed(job) else Idle
      ensures Handles(old(sys), sys, job, actions)
      ensures sys.succeeded == old(sys.succeeded) + if Completes(old(sys), job, outcome) then {job} else {}
    {
      ghost var start := sys;
      LockIsTakenIff(sys, job, Succeeds);
      actions := [Work(Succeeds)];
      var active := TakeLock(job);
      if active.Err? {
        return true, actions;
      }
      if active.value != [] {
        HandlesOneMore(start, sys, job, actions, Succeeds);
        actions := actions + [Work(Succeeds)];
        WriteFailed(job);
        return false, actions;
      }
      ghost var locked, more := sys, [];
      crashed, more := RunAndRelease(job, outcome);
      HandlesOn(start, locked, sys, job, actions, more);
      actions := actions + more;
    }

    /** The worker is idle again, and whatever was raised the job is settled. */
    method ProcessItem(job: JobId, outcome: Outcome) returns (ghost actions: seq<Action>)
      requires Valid() && SysInv(sys) && sys.phase == Taken(job)
      modifies this`store, this`sys, this`currentJob, scheduler`holder
      ensures Valid() && SysInv(sys) && sys.phase == Idle
      ensures Handles(old(sys), sys, job, actions)
      ensures sys.succeeded == old(sys.succeeded) + if Completes(old(sys), job, outcome) then {job} else {}
      ensures job in store ==> store[job] == if Completes(old(sys), job, outcome) then Completed else Failed
    {
      ghost var start := sys;
      var crashed;
      crashed, actions := RunJob(job, outcome);
      if crashed {
        HandlesOneMore(start, sys, job, actions, Succeeds);
        actions := actions + [Work(Succeeds)];
        WriteFailed(job);
      }
      TakenJobIsSettled(start, sys, job);
    }

    /** Takes the next job from the queue and runs it. */
    method RunNext(outcomes: JobId -> Outcome) returns (ghost actions: seq<Action>)
      requires Valid() && SysInv(sys) && sys.phase == Idle && queue != []
      modifies this`store, this`queue, this`sys, this`currentJob, scheduler`holder
      ensures Valid() && SysInv(sys) && sys.phase == Idle && queue == old(queue)[1..]
      ensures WorkerGets(old(sys), sys, actions)
      ensures RanNext(old(sys), sys, old(queue)[0], outcomes)
    {
      ghost var start := sys;
      var job := queue[0];
      StepKeepsInv(sys, Work(Succeeds));
      WorkerGetsBy(sys, Succeeds);
      queue := queue[1..];
      sys := Step(sys, Work(Succeeds));
      ghost var taken := sys;
      actions := ProcessItem(job, outcomes(job));
      WorkerGetsOn(start, taken, sys, [Work(Succeeds)], actions);
      actions := [Work(Succeeds)] + actions;
    }

    /** Runs every queued job in order, whatever the injected parts do for each of them. Every step is the worker's;
        a job ends COMPLETED exactly when it still was QUEUED, no model was Active and its runner reported success. */
    method RunUntilIdle(outcomes: JobId -> Outcome) returns (ghost actions: seq<Action>)
      requires Valid() && SysInv(sys) && sys.phase == Idle
      modifies this`store, this`queue, this`sys, this`currentJob, scheduler`holder
      ensures Valid() && SysInv(sys) && sys.phase == Idle && queue == []
      ensures WorkerGets(old(sys), sys, actions)
      ensures sys.enqueued == sys.done == old(sys.enqueued) && store.Keys == old(store.Keys)
      ensures sys.sched == old(sys.sched)
      ensures forall j :: j in sys.succeeded <==>
        j in old(sys.succeeded) || (j in old(queue) && Completes(old(sys), j, outcomes(j)))
      ensures forall j | j in store ::
        store[j] == (if j !in old(queue) then old(store)[j]
                     else if Completes(old(sys), j, outcomes(j)) then Completed else Failed)
    {
      ghost var start, n := sys, 0;
      actions := [];
      while queue != []
        invariant Valid() && SysInv(sys) && sys.phase == Idle
        invariant n <= |start.queue| && queue == start.queue[n..]
        invariant WorkerGets(start, sys, actions)
        invariant Ran(start, sys, start.queue[..n], outcomes)
        decreases |queue|
      {
        ghost var before, more := sys, [];
        more := RunNext(outcomes);
        WorkerGetsOn(start, before, sys, actions, more);
        actions := actions + more;
        RanOneMore(start, before, sys, n, outcomes);
        n := n + 1;
      }
      assert start.queue[..n] == start.queue;
      assert sys.done == sys.enqueued;
    }
  }

  /** A stored job that is enqueued on an idle executor while no model is Active is COMPLETED once the queue is empty
      if its runner reports success, and FAILED otherwise. */
  method EnqueueAndRun(executor: TrainingExecutor, job: JobId, outcomes: JobId -> Outcome)
    requires executor.Valid() && SysInv(executor.sys) && executor.sys.phase == Idle && executor.queue == []
    requires Enabled(executor.sys, EnqueueMark(job)) && job in executor.store && job != ""
    requires NoneActive(executor.scheduler.View())
    modifies executor, executor.scheduler`holder
    ensures executor.queue == [] && executor.store.Keys == old(executor.store.Keys)
    ensures executor.store[job] ==
      if outcomes(job).command != Raises && outcomes(job).runner == Succeeds then Completed else Failed
    ensures forall j | j in executor.store && j != job :: executor.store[j] == old(executor.store)[j]
  {
    StepKeepsInv(executor.sys, EnqueueMark(job));
    StepKeepsInv(Step(executor.sys, EnqueueMark(job)), EnqueuePut(job));
    executor.Enqueue(job);
    ghost var actions := executor.RunUntilIdle(outcomes);
  }

  /** The injected parts report success on a job that is still QUEUED when it is marked. */
  predicate Runs(s: Sys, job: JobId, outcome: Outcome)
  {
    job in s.store && s.store[job] == Queued && outcome.command != Raises && outcome.runner == Succeeds
  }

  /** The job also gets the training lock. */
  ghost predicate Completes(s: Sys, job: JobId, outcome: Outcome)
  {
    job != "" && NoneActive(s.sched) && Runs(s, job, outcome)
  }

  lemma TakenJobIsSettled(s: Sys, t: Sys, job: JobId)
    requires SysInv(s) && s.phase == Taken(job) && SysInv(t) && t.phase == Idle && OnlyJobChanged(s, t, job)
    ensures job !in s.succeeded
    ensures job in t.store ==> t.store[job] == if job in t.succeeded then Completed else Failed
  {
    assert JobOk(s, job) && JobOk(t, job);
    WhereAJobIs(s, job);
    WhereAJobIs(t, job);
  }

  /** From s to t exactly the given jobs have been run, each with its outcome. */
  ghost predicate Ran(s: Sys, t: Sys, jobs: seq<JobId>, outcomes: JobId -> Outcome)
  {
    && t.enqueued == s.enqueued && t.sched == s.sched && t.store.Keys == s.store.Keys
    && (forall j :: j in t.succeeded <==> j in s.succeeded || (j in jobs && Completes(s, j, outcomes(j))))
    && forall j | j in s.store ::
         t.store[j] == (if j !in jobs then s.store[j] else if Completes(s, j, outcomes(j)) then Completed else Failed)
  }

  /** From s to t the given job, first in the queue, has been run. */
  ghost predicate RanNext(s: Sys, t: Sys, job: JobId, outcomes: JobId -> Outcome)
  {
    var ok := Completes(s, job, outcomes(job));
    && t.enqueued == s.enqueued && t.store.Keys == s.store.Keys
    && t.sched == s.sched.(holder := t.sched.holder)
    && t.succeeded == s.succeeded + (if ok then {job} else {})
    && (forall j | j in s.store && j != job :: t.store[j] == s.store[j])
    && (job in t.store ==> t.store[job] == if ok then Completed else Failed)
  }

  lemma RanOneMore(s: Sys, t: Sys, u: Sys, n: nat, outcomes: JobId -> Outcome)
    requires SysInv(s) && SysInv(t) && SysInv(u) && t.phase == Idle && u.phase == Idle
    requires n < |s.queue| && t.queue == s.queue[n..]
    requires Ran(s, t, s.queue[..n], outcomes)
    requires RanNext(t, u, s.queue[n], outcomes)
    ensures Ran(s, u, s.queue[..n + 1], outcomes)
  {
    var job := s.queue[n];
    QueueIsDistinct(s);
    assert s.queue[..n + 1] == s.queue[..n] + [job];
    assert job !in s.queue[..n];
  }

  lemma QueueIsDistinct(s: Sys)
    requires QueueInv(s)
    ensures Distinct(s.queue)
  {
    var d := |s.done| + |WorkerJobs(s.phase)|;
    assert forall k | 0 <= k < |s.queue| :: s.enqueued[d + k] == s.queue[k];
  }
}
