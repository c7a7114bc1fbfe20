/** The training executor and the scheduler, interleaved (core/training/executor.py:356-559).
    One action is one region that runs under a lock, or one call into an injected part; the single
    worker and any number of callers take turns in any order. */
module TrainingProtocol {
  import opened Wrappers
  import opened Placement
  import opened PlacementProofs
  import opened AcquireProofs

  type JobId = string

  datatype Status = Planned | Queued | Running | Completed | Failed

  /** Where the worker stands; every phase but Idle names the job it has taken from the queue. */
  datatype Phase =
    | Idle
    | Taken(job: JobId)                    // before try_begin_training
    | Refused(job: JobId)                  // models were Active, FAILED not yet written
    | Locked(job: JobId)                   // lock taken, status not yet checked
    | Marked(job: JobId)                   // RUNNING written, command not yet resolved
    | InRunner(job: JobId)                 // inside runner.run
    | Returned(job: JobId, success: bool)  // runner done, result not yet written
    | Releasing(job: JobId, crashed: bool) // before end_training
    | Crashed(job: JobId)                  // lock released, FAILED not yet written

  /** What the injected parts do when they are called: command resolution, the runner, and the
      checkpoint scan after a failed run may each raise. */
  datatype Choice = Succeeds | Fails | Raises

  /** The last six fields are histories; no action reads them. */
  datatype Sys = Sys(
    sched: Sched, store: map<JobId, Status>, queue: seq<JobId>, phase: Phase,
    putting: set<JobId>,       // status written by enqueue, not yet put on the queue
    enqueued: seq<JobId>,      // in the order in which they were put
    done: seq<JobId>,          // processed by the worker
    started: seq<JobId>,       // in the order in which they reached RUNNING
    given: seq<JobId>,         // handed to the runner
    cancelled: set<JobId>,     // cancelled while QUEUED
    succeeded: set<JobId>,     // the runner reported success
    begins: nat, ends: nat)    // successful try_begin_training and end_training calls

  datatype Action =
    | Submit(job: JobId)
    | EnqueueMark(job: JobId)
    | EnqueuePut(job: JobId)
    | Cancel(job: JobId)
    | Use(op: Op)
    | Work(choice: Choice)

  function SetStatus(store: map<JobId, Status>, job: JobId, status: Status): map<JobId, Status>
  {
    if job in store then store[job := status] else store
  }

  function WorkerJobs(p: Phase): seq<JobId>
  {
    if p == Idle then [] else [p.job]
  }

  /** Hypotheses on the callers: a job id is new when it is submitted, is enqueued once, and only the
      executor takes or releases the training lock. Everything else may happen at any time. */
  predicate Enabled(s: Sys, a: Action)
  {
    match a
    case Submit(job) => job !in s.store && job !in s.putting && job !in s.enqueued
    case EnqueueMark(job) => job !in s.putting && job !in s.enqueued
    case EnqueuePut(job) => job in s.putting
    case Cancel(job) => true
    case Use(op) =>
      && !op.DoTryBegin? && !op.DoEnd?
      && (op.DoRegister? ==>
            op.model.state == Cold && Find(s.sched.models, op.model.name) == |s.sched.models|)
    case Work(_) => s.phase != Idle || s.queue != []
  }

  function Worker(s: Sys, c: Choice): Sys
    requires s.phase != Idle || s.queue != []
  {
    match s.phase
    case Idle => s.(phase := Taken(s.queue[0]), queue := s.queue[1..])
    case Taken(j) =>
      var (sched, r) := TryBeginTraining(s.sched, j);
      if r.Err? then s.(phase := Crashed(j))
      else if r.value != [] then s.(phase := Refused(j))
      else s.(sched := sched, phase := Locked(j), begins := s.begins + 1)
    case Refused(j) => s.(store := SetStatus(s.store, j, Failed), phase := Idle, done := s.done + [j])
    case Locked(j) =>
      if j !in s.store || s.store[j] != Queued then s.(phase := Releasing(j, false))
      else s.(store := s.store[j := Running], phase := Marked(j), started := s.started + [j])
    case Marked(j) =>
      if c == Raises then s.(phase := Releasing(j, true))
      else s.(phase := InRunner(j), given := s.given + [j])
    case InRunner(j) =>
      (match c
       case Raises => s.(phase := Releasing(j, true))
       case Succeeds => s.(phase := Returned(j, true), succeeded := s.succeeded + {j})
       case Fails => s.(phase := Returned(j, false)))
    case Returned(j, success) =>
      if success then s.(store := SetStatus(s.store, j, Completed), phase := Releasing(j, false))
      else if c == Raises then s.(phase := Releasing(j, true))
      else s.(store := SetStatus(s.store, j, Failed), phase := Releasing(j, false))
    case Releasing(j, crashed) =>
      var t := s.(sched := EndTraining(s.sched), ends := s.ends + 1);
      if crashed then t.(phase := Crashed(j)) else t.(phase := Idle, done := s.done + [j])
    case Crashed(j) => s.(store := SetStatus(s.store, j, Failed), phase := Idle, done := s.done + [j])
  }

  function Step(s: Sys, a: Action): Sys
    requires Enabled(s, a)
  {
    match a
    case Submit(job) => s.(store := s.store[job := Planned])
    case EnqueueMark(job) => s.(store := SetStatus(s.store, job, Queued), putting := s.putting + {job})
    case EnqueuePut(job) =>
      s.(queue := s.queue + [job], enqueued := s.enqueued + [job], putting := s.putting - {job})
    case Cancel(job) =>
      if job in s.store && s.store[job] == Queued
      then s.(store := s.store[job := Failed], cancelled := s.cancelled + {job})
      else s
    case Use(op) => s.(sched := Apply(s.sched, op))
    case Work(c) => Worker(s, c)
  }

  function Initial(b: Budget): Sys
  {
    Sys(Empty(b), map[], [], Idle, {}, [], [], [], [], {}, {}, 0, 0)
  }

  // ----- the invariant ---------------------------------------------------------------------

  predicate HoldsLock(p: Phase)
  {
    p.Locked? || p.Marked? || p.InRunner? || p.Returned? || p.Releasing?
  }

  ghost predicate NoneActive(s: Sched)
  {
    forall m | m in s.models :: m.state != Active
  }

  /** The lock is held by the worker's job exactly from try_begin_training to end_training,
      and meanwhile no model is Active. */
  ghost predicate LockInv(s: Sys)
  {
    && Inv(s.sched)
    && s.sched.holder == (if HoldsLock(s.phase) then Some(s.phase.job) else None)
    && (HoldsLock(s.phase) ==> NoneActive(s.sched))
    && s.begins == s.ends + (if HoldsLock(s.phase) then 1 else 0)
  }

  ghost predicate Distinct(jobs: seq<JobId>)
  {
    forall i, j | 0 <= i < j < |jobs| :: jobs[i] != jobs[j]
  }

  /** Jobs pass through the queue in order, each once. */
  ghost predicate QueueInv(s: Sys)
  {
    && s.enqueued == s.done + WorkerJobs(s.phase) + s.queue
    && Distinct(s.enqueued)
    && (forall j | j in s.putting :: j !in s.enqueued)
  }

  predicate Waiting(p: Phase) { p.Taken? || p.Refused? || p.Locked? }
  predicate Executing(p: Phase) { p.Marked? || p.InRunner? || p.Returned? || (p.Releasing? && p.crashed) }

  predicate AtWorker(s: Sys, j: JobId) { s.phase != Idle && s.phase.job == j }

  /** The status that a stored job has, by where it stands. */
  predicate StatusFits(s: Sys, j: JobId)
    requires j in s.store
  {
    var status := s.store[j];
    var waiting := status == Queued || status == Failed;
    var settled := status == if j in s.succeeded then Completed else Failed;
    if j in s.putting || j in s.queue then waiting
    else if AtWorker(s, j) then
      (if Waiting(s.phase) then waiting
       else if Executing(s.phase) then status == Running
       else if s.phase.Releasing? then settled
       else if j in s.started then status == Running
       else waiting)
    else if j in s.done then settled
    else status == Planned
  }

  predicate JobOk(s: Sys, j: JobId)
  {
    && (j in s.store ==> StatusFits(s, j))
    && (j in s.cancelled ==>
          j in s.store && s.store[j] == Failed && (j in s.putting || j in s.enqueued) && j !in s.started)
    && (j in s.started ==> j in s.done || (AtWorker(s, j) && !Waiting(s.phase)))
    && (j in s.given ==> j in s.started && (j in s.done || (AtWorker(s, j) && !Waiting(s.phase) && !s.phase.Marked?)))
    && (j in s.succeeded ==>
          j in s.given && (j in s.done || s.phase == Returned(j, true) || s.phase == Releasing(j, false)))
    && (AtWorker(s, j) && Executing(s.phase) ==> j in s.store && j in s.started)
    && (AtWorker(s, j) && (s.phase.InRunner? || s.phase.Returned?) ==> j in s.given)
    && (s.phase == Returned(j, true) ==> j in s.succeeded)
  }

  /** part lists some members of whole, each at most once, in the order of whole. */
  ghost predicate InOrder(part: seq<JobId>, whole: seq<JobId>)
  {
    forall i, k, p, q | 0 <= i < k < |part| && 0 <= p < |whole| && 0 <= q < |whole|
                        && whole[p] == part[i] && whole[q] == part[k] :: p < q
  }

  ghost predicate SysInv(s: Sys)
  {
    && LockInv(s)
    && QueueInv(s)
    && (forall j :: JobOk(s, j))
    && InOrder(s.started, s.enqueued)
    && InOrder(s.given, s.enqueued)
  }
}
