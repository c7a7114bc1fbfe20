/** Safety of the executor and scheduler in every interleaving. */
module TrainingProofs {
  import opened Wrappers
  import opened Placement
  import opened PlacementProofs
  import opened AcquireProofs
  import opened TrainingProtocol

  // ----- the training lock -----------------------------------------------------------------

  lemma {:induction false} NoActiveNames(models: seq<Model>)
    ensures ActiveNames(models) == [] <==> forall m | m in models :: m.state != Active
  {
    if models != [] {
      NoActiveNames(models[1..]);
      assert models[0] in models;
      assert forall m :: m in models <==> m == models[0] || m in models[1..];
    }
  }

  lemma MovedDownActivatesNothing(s: Sched, r: Sched, i: nat)
    requires MovedDown(s, r, i) && NoneActive(s) && r.models[i].state != Active
    ensures NoneActive(r)
  {
    forall m | m in r.models ensures m.state != Active {
      var k :| 0 <= k < |r.models| && r.models[k] == m;
      assert s.models[k] in s.models;
    }
  }

  /** While the lock is held no operation of another caller makes a model Active. */
  lemma LockedSchedulerActivatesNothing(s: Sched, op: Op)
    requires s.holder.Some? && NoneActive(s)
    requires !op.DoTryBegin? && !op.DoEnd? && (op.DoRegister? ==> op.model.state != Active)
    ensures NoneActive(Apply(s, op)) && Apply(s, op).holder == s.holder
  {
    match op {
      case DoRegister(m) =>
      case DoAcquire(name, now) =>
      case DoDemote(name, reason, now) =>
        var i := Find(s.models, name);
        if i < |s.models| {
          DemoteMovesDown(s, i, reason, now);
          MovedDownActivatesNothing(s, Demote(s, name, reason, now), i);
        }
      case DoEvict(name, reason, now) =>
        var i := Find(s.models, name);
        if i < |s.models| {
          EvictMovesDown(s, i, reason, now);
          MovedDownActivatesNothing(s, Evict(s, name, reason, now), i);
        }
      case DoTick(now, clock) => TickActivatesNothing(s, 0, now, clock);
    }
  }

  lemma {:induction false} TickActivatesNothing(s: Sched, i: nat, now: real, clock: Clock)
    requires i <= |s.models| && NoneActive(s)
    ensures NoneActive(TickFrom(s, i, now, clock)) && TickFrom(s, i, now, clock).holder == s.holder
    decreases |s.models| - i
  {
    if i < |s.models| {
      TickOneMovesDown(s, i, now, clock(i));
      assert s.models[i] in s.models;
      MovedDownActivatesNothing(s, TickOne(s, i, now, clock(i)), i);
      TickActivatesNothing(TickOne(s, i, now, clock(i)), i + 1, now, clock);
    }
  }

  lemma HolderIsOnlyTakenByTraining(s: Sched, op: Op)
    requires Inv(s) && !op.DoTryBegin? && !op.DoEnd?
    ensures Apply(s, op).holder == s.holder
  {
    match op {
      case DoAcquire(name, now) => AcquireKeepsInv(s, name, now);
      case DoTick(now, clock) => TickKeeps(s, 0, now, clock);
      case _ =>
    }
  }

  lemma LockKept(s: Sys, a: Action)
    requires LockInv(s) && Enabled(s, a)
    ensures LockInv(Step(s, a))
  {
    match a {
      case Use(op) => LockKeptByOperation(s, op);
      case Work(c) => LockKeptByWorker(s, c);
      case _ =>
    }
  }

  lemma LockKeptByOperation(s: Sys, op: Op)
    requires LockInv(s) && Enabled(s, Use(op))
    ensures LockInv(Step(s, Use(op)))
  {
    OperationKeepsInv(s.sched, op);
    HolderIsOnlyTakenByTraining(s.sched, op);
    if HoldsLock(s.phase) {
      LockedSchedulerActivatesNothing(s.sched, op);
    }
  }

  lemma LockKeptByWorker(s: Sys, c: Choice)
    requires LockInv(s) && Enabled(s, Work(c))
    ensures LockInv(Step(s, Work(c)))
  {
    NoActiveNames(s.sched.models);
    WorkerOnlyMovesTheLock(s, c);
    HolderIsNoBudget(s.sched, Worker(s, c).sched.holder);
  }

  lemma WorkerOnlyMovesTheLock(s: Sys, c: Choice)
    requires Enabled(s, Work(c))
    ensures Worker(s, c).sched == s.sched.(holder := Worker(s, c).sched.holder)
  {
  }

  lemma HolderIsNoBudget(s: Sched, holder: Option<string>)
    requires Inv(s)
    ensures Inv(s.(holder := holder))
    ensures NoneActive(s.(holder := holder)) <==> NoneActive(s)
  {
  }

  lemma OperationKeepsInv(s: Sched, op: Op)
    requires Inv(s) && Proper(s, op)
    ensures Inv(Apply(s, op))
  {
    match op {
      case DoRegister(m) => if m.vram <= s.budget.vram { RegisterKeepsBudgetsIff(s, m); }
      case DoAcquire(name, now) => AcquireKeepsInv(s, name, now);
      case DoDemote(name, reason, now) =>
        var i := Find(s.models, name);
        if i < |s.models| {
          DemoteMovesDown(s, i, reason, now);
          MovedDownKeepsInv(s, Demote(s, name, reason, now), i);
        }
      case DoEvict(name, reason, now) =>
        var i := Find(s.models, name);
        if i < |s.models| {
          EvictMovesDown(s, i, reason, now);
          MovedDownKeepsInv(s, Evict(s, name, reason, now), i);
        }
      case DoTick(now, clock) => TickKeeps(s, 0, now, clock);
      case _ =>
    }
  }

  // ----- the queue -------------------------------------------------------------------------------

  lemma QueueKept(s: Sys, a: Action)
    requires QueueInv(s) && Enabled(s, a)
    ensures QueueInv(Step(s, a))
  {
    match a {
      case EnqueuePut(job) =>
        ConcatAssociates(s.done + WorkerJobs(s.phase), s.queue, [job]);
      case Work(c) => QueueKeptByWorker(s, c);
      case _ =>
    }
  }

  lemma QueueKeptByWorker(s: Sys, c: Choice)
    requires QueueInv(s) && Enabled(s, Work(c))
    ensures QueueInv(Worker(s, c))
  {
    var t := Worker(s, c);
    if s.phase == Idle {
      FirstIsTaken(s.done, s.queue);
    } else if t.phase == Idle {
      ConcatAssociates(s.done, [s.phase.job], s.queue);
    }
  }

  lemma FirstIsTaken(done: seq<JobId>, queue: seq<JobId>)
    requires queue != []
    ensures done + [] + queue == done + [queue[0]] + queue[1..]
  {
  }

  /** A job is done, with the worker, waiting, or about to be put; never two of these. */
  lemma WhereAJobIs(s: Sys, j: JobId)
    requires QueueInv(s)
    ensures j in s.enqueued <==> j in s.done || j in s.queue || AtWorker(s, j)
    ensures !(j in s.done && j in s.queue) && !(j in s.done && AtWorker(s, j)) && !(j in s.queue && AtWorker(s, j))
    ensures j in s.putting ==> j !in s.enqueued
  {
    var d, w := |s.done|, |WorkerJobs(s.phase)|;
    assert forall k | 0 <= k < d :: s.enqueued[k] == s.done[k];
    assert forall k | 0 <= k < |s.queue| :: s.enqueued[d + w + k] == s.queue[k];
    assert s.phase != Idle ==> s.enqueued[d] == s.phase.job;
  }

  // ----- each job -------------------------------------------------------------------------------

  lemma JobKept(s: Sys, a: Action, j: JobId)
    requires QueueInv(s) && Enabled(s, a) && JobOk(s, j)
    ensures JobOk(Step(s, a), j)
  {
    WhereAJobIs(s, j);
    match a {
      case EnqueuePut(job) =>
        QueueKept(s, a);
        WhereAJobIs(Step(s, a), j);
      case Work(c) => JobKeptByWorker(s, c, j);
      case _ =>
    }
  }

  lemma MembershipAfterWorker(s: Sys, c: Choice, j: JobId)
    requires s.phase != Idle || s.queue != []
    ensures var t := Worker(s, c);
      && (j in t.done <==> j in s.done || (s.phase != Idle && t.phase == Idle && AtWorker(s, j)))
      && (s.phase != Idle ==> (j in t.queue <==> j in s.queue))
      && (s.phase == Idle ==> (j in s.queue <==> j in t.queue || AtWorker(t, j)))
      && (j in t.started <==> j in s.started || (s.phase.Locked? && t.phase.Marked? && AtWorker(s, j)))
      && (j in t.given <==> j in s.given || (t.phase.InRunner? && AtWorker(s, j)))
      && (j in t.succeeded <==>
            j in s.succeeded || (s.phase.InRunner? && t.phase == Returned(j, true) && AtWorker(s, j)))
      && (j in t.store <==> j in s.store)
      && (j in t.store && !AtWorker(s, j) ==> t.store[j] == s.store[j])
      && t.enqueued == s.enqueued && t.putting == s.putting && t.cancelled == s.cancelled
  {
    if s.phase == Idle {
      assert s.queue == [s.queue[0]] + s.queue[1..];
    }
  }

  /** A job that the worker is not holding keeps its place. */
  lemma OtherJobKept(s: Sys, c: Choice, j: JobId)
    requires QueueInv(s) && s.phase != Idle && JobOk(s, j) && !AtWorker(s, j)
    ensures JobOk(Worker(s, c), j)
  {
    MembershipAfterWorker(s, c, j);
  }

  lemma DequeuedJobKept(s: Sys, c: Choice, j: JobId)
    requires QueueInv(s) && s.phase == Idle && s.queue != [] && JobOk(s, j)
    ensures JobOk(Worker(s, c), j)
  {
    WhereAJobIs(s, j);
    MembershipAfterWorker(s, c, j);
    QueueKept(s, Work(c));
    WhereAJobIs(Worker(s, c), j);
  }

  lemma HeldJobKept(s: Sys, c: Choice, j: JobId)
    requires QueueInv(s) && AtWorker(s, j) && JobOk(s, j)
    ensures JobOk(Worker(s, c), j)
  {
    WhereAJobIs(s, j);
    MembershipAfterWorker(s, c, j);
  }

  lemma JobKeptByWorker(s: Sys, c: Choice, j: JobId)
    requires QueueInv(s) && (s.phase != Idle || s.queue != []) && JobOk(s, j)
    ensures JobOk(Worker(s, c), j)
  {
    if s.phase == Idle {
      DequeuedJobKept(s, c, j);
    } else if AtWorker(s, j) {
      HeldJobKept(s, c, j);
    } else {
      OtherJobKept(s, c, j);
    }
  }

  // ----- order --------------------------------------------------------------------------------------

  lemma OrderGrowsAtTheEnd(part: seq<JobId>, whole: seq<JobId>, job: JobId)
    requires InOrder(part, whole) && job !in part
    ensures InOrder(part, whole + [job])
  {
  }

  /** The worker's job comes after every job that is done. */
  lemma NextInOrder(s: Sys, part: seq<JobId>)
    requires QueueInv(s) && s.phase != Idle && InOrder(part, s.enqueued)
    requires forall j | j in part :: j in s.done
    ensures InOrder(part + [s.phase.job], s.enqueued)
  {
    var whole, n, next := s.enqueued, |s.done|, part + [s.phase.job];
    assert whole[n] == s.phase.job;
    forall i, k, p, q | 0 <= i < k < |next| && 0 <= p < |whole| && 0 <= q < |whole|
                        && whole[p] == next[i] && whole[q] == next[k]
      ensures p < q
    {
      if k == |part| {
        assert next[i] in part;
        var m :| 0 <= m < n && s.done[m] == next[i];
        assert whole[m] == s.done[m];
      }
    }
  }

  lemma OrderKept(s: Sys, a: Action)
    requires SysInv(s) && Enabled(s, a)
    ensures var t := Step(s, a); InOrder(t.started, t.enqueued) && InOrder(t.given, t.enqueued)
  {
    match a {
      case EnqueuePut(job) =>
        assert JobOk(s, job);
        WhereAJobIs(s, job);
        OrderGrowsAtTheEnd(s.started, s.enqueued, job);
        OrderGrowsAtTheEnd(s.given, s.enqueued, job);
      case Work(c) =>
        if s.phase.Locked? || s.phase.Marked? {
          forall j | j in (if s.phase.Locked? then s.started else s.given) ensures j in s.done {
            assert JobOk(s, j);
          }
          NextInOrder(s, if s.phase.Locked? then s.started else s.given);
        }
      case _ =>
    }
  }

  // ----- whole runs ------------------------------------------------------------------------------------

  lemma StepKeepsInv(s: Sys, a: Action)
    requires SysInv(s) && Enabled(s, a)
    ensures SysInv(Step(s, a))
  {
    LockKept(s, a);
    QueueKept(s, a);
    forall j ensures JobOk(Step(s, a), j) {
      assert JobOk(s, j);
      JobKept(s, a, j);
    }
    OrderKept(s, a);
  }

  ghost predicate Possible(s: Sys, actions: seq<Action>)
    decreases |actions|
  {
    actions == [] || (Enabled(s, actions[0]) && Possible(Step(s, actions[0]), actions[1..]))
  }

  ghost function After(s: Sys, actions: seq<Action>): Sys
    requires Possible(s, actions)
    decreases |actions|
  {
    if actions == [] then s else After(Step(s, actions[0]), actions[1..])
  }

  lemma {:induction false} EveryInterleavingKeepsInv(s: Sys, actions: seq<Action>)
    requires SysInv(s) && Possible(s, actions)
    ensures SysInv(After(s, actions))
    decreases |actions|
  {
    if actions != [] {
      StepKeepsInv(s, actions[0]);
      EveryInterleavingKeepsInv(Step(s, actions[0]), actions[1..]);
    }
  }

  /** The invariant holds in every state that any interleaving reaches. */
  lemma Reachable(b: Budget, actions: seq<Action>)
    requires Possible(Initial(b), actions)
    ensures SysInv(After(Initial(b), actions))
  {
    InitialInv(b);
    EveryInterleavingKeepsInv(Initial(b), actions);
  }

  lemma InitialInv(b: Budget)
    ensures SysInv(Initial(b))
  {
    assert LockInv(Initial(b));
    forall j ensures JobOk(Initial(b), j) {
    }
  }

  /** In every interleaving no model is Active while a job is inside the runner, and the lock is held by that job. */
  lemma TrainingIsExclusive(b: Budget, actions: seq<Action>)
    requires Possible(Initial(b), actions)
    ensures var s := After(Initial(b), actions);
      s.phase.InRunner? ==>
        && s.sched.holder == Some(s.phase.job)
        && (forall m | m in s.sched.models :: m.state != Active)
        && VramUsed(s.sched) == 0
  {
    Reachable(b, actions);
    var s := After(Initial(b), actions);
    if s.phase.InRunner? {
      NothingActiveUsesNoVram(s.sched.models);
    }
  }

  lemma {:induction false} NothingActiveUsesNoVram(models: seq<Model>)
    requires forall m | m in models :: m.state != Active
    ensures Load(models, Active) == 0
  {
    if models != [] {
      assert models[0] in models;
      assert forall m | m in models[1..] :: m in models;
      NothingActiveUsesNoVram(models[1..]);
    }
  }

  lemma SettledWhenIdle(s: Sys)
    requires SysInv(s) && s.phase == Idle && s.queue == []
    ensures forall j | j in s.enqueued && j in s.store ::
      s.store[j] == if j in s.succeeded then Completed else Failed
    ensures forall j | j in s.cancelled :: j !in s.given
  {
    forall j | j in s.enqueued && j in s.store ensures s.store[j] == if j in s.succeeded then Completed else Failed {
      assert JobOk(s, j);
      WhereAJobIs(s, j);
    }
    forall j | j in s.cancelled ensures j !in s.given {
      assert JobOk(s, j);
    }
  }

  /** Once the queue is empty and the worker idle: every stored enqueued job is COMPLETED exactly when its
      runner reported success and FAILED otherwise; jobs ran in the order in which they were enqueued; every
      successful try_begin_training has its end_training; no job cancelled while QUEUED reached the runner. */
  lemma AnEmptyQueueMeansEveryJobIsSettled(b: Budget, actions: seq<Action>)
    requires Possible(Initial(b), actions)
    ensures var s := After(Initial(b), actions);
      s.phase == Idle && s.queue == [] ==>
        && (forall j | j in s.enqueued && j in s.store ::
              s.store[j] == if j in s.succeeded then Completed else Failed)
        && InOrder(s.started, s.enqueued) && InOrder(s.given, s.enqueued)
        && s.begins == s.ends && s.sched.holder == None
        && (forall j | j in s.cancelled :: j !in s.given)
  {
    Reachable(b, actions);
    var s := After(Initial(b), actions);
    if s.phase == Idle && s.queue == [] {
      SettledWhenIdle(s);
    }
  }

  /** At every moment at most one job is RUNNING, and it is the worker's. */
  lemma AtMostOneJobRuns(b: Budget, actions: seq<Action>, j: JobId)
    requires Possible(Initial(b), actions)
    ensures var s := After(Initial(b), actions);
      j in s.store && s.store[j] == Running ==> AtWorker(s, j) && j in s.started
  {
    Reachable(b, actions);
    var s := After(Initial(b), actions);
    assert JobOk(s, j);
    WhereAJobIs(s, j);
  }

  // ----- the worker always gets to the end of the queue ----------------------------------------------

  function Remaining(p: Phase): nat
  {
    match p
    case Idle => 0
    case Taken(_) => 7
    case Locked(_) => 6
    case Marked(_) => 5
    case InRunner(_) => 4
    case Returned(_, _) => 3
    case Releasing(_, _) => 2
    case Crashed(_) => 1
    case Refused(_) => 1
  }

  function WorkLeft(s: Sys): nat { 8 * |s.queue| + Remaining(s.phase) }

  /** Whatever the injected parts do, each worker step brings the empty queue nearer. */
  lemma WorkerMakesProgress(s: Sys, c: Choice)
    requires s.phase != Idle || s.queue != []
    ensures WorkLeft(Worker(s, c)) < WorkLeft(s)
  {
  }

  lemma {:induction false} WorkerEmptiesTheQueue(s: Sys, choices: nat -> Choice, n: nat)
    returns (actions: seq<Action>)
    ensures Possible(s, actions)
    ensures var t := After(s, actions); t.phase == Idle && t.queue == []
    ensures forall i | 0 <= i < |actions| :: actions[i] == Work(choices(n + i))
    decreases WorkLeft(s)
  {
    if s.phase == Idle && s.queue == [] {
      return [];
    }
    var c := choices(n);
    WorkerMakesProgress(s, c);
    var rest := WorkerEmptiesTheQueue(Worker(s, c), choices, n + 1);
    actions := [Work(c)] + rest;
    assert actions[1..] == rest;
    forall i | 0 <= i < |actions| ensures actions[i] == Work(choices(n + i)) {
      if i > 0 {
        assert actions[i] == rest[i - 1];
      }
    }
  }

  // ----- the hypotheses are needed ----------------------------------------------------------------------

  /** While a job runs, registering keeps the exclusion exactly when the new record is not Active. */
  lemma RegisteringDuringTrainingIff(s: Sched, m: Model)
    requires NoneActive(s) && m.vram <= s.budget.vram
    ensures NoneActive(Register(s, m).0) <==> m.state != Active
  {
    var i := Find(s.models, m.name);
    var r := Register(s, m).0;
    assert m in r.models by {
      assert r.models[if i < |s.models| then i else |s.models|] == m;
    }
    forall q | q in r.models ensures q == m || q in s.models {
    }
  }

  /** A RUNNING job is without the training lock exactly between the release and its FAILED write, after an
      exception has left the locked part. */
  lemma RunningWithoutTheLockIff(s: Sys, j: JobId)
    requires SysInv(s) && j in s.store
    ensures s.store[j] == Running && s.sched.holder != Some(j) <==> s.phase == Crashed(j) && j in s.started
  {
    assert JobOk(s, j);
    WhereAJobIs(s, j);
  }

  /** What raised in the locked part: resolving the command, the runner, or the checkpoint scan after a failed run. */
  predicate RaisesWhileLocked(s: Sys, j: JobId, c: Choice)
  {
    c == Raises && (s.phase == Marked(j) || s.phase == InRunner(j) || s.phase == Returned(j, false))
  }

  /** The worker comes to release the lock of a job that is still RUNNING exactly when the step before raised; the
      release then leaves the job RUNNING without the lock until the next step writes FAILED. */
  lemma OnlyARaiseOutlivesTheLock(s: Sys, j: JobId, c: Choice, d: Choice)
    requires SysInv(s) && s.phase != Idle && !s.phase.Releasing?
    ensures Worker(s, c).phase == Releasing(j, true) <==> RaisesWhileLocked(s, j, c)
    ensures RaisesWhileLocked(s, j, c) ==>
      var t := Worker(Worker(s, c), d);
      && t.phase == Crashed(j) && j in t.started && t.sched.holder == None
      && j in t.store && t.store[j] == Running
      && Worker(t, d).store[j] == Failed
  {
    if RaisesWhileLocked(s, j, c) {
      assert JobOk(s, j);
      WhereAJobIs(s, j);
    }
  }

  // ----- what the worker's own steps change ---------------------------------------------------------------

  /** The worker gets from s to t by its own steps. */
  ghost predicate WorkerGets(s: Sys, t: Sys, actions: seq<Action>)
  {
    Possible(s, actions) && t == After(s, actions) && forall a | a in actions :: a.Work?
  }

  lemma WorkerGetsBy(s: Sys, c: Choice)
    requires s.phase != Idle || s.queue != []
    ensures WorkerGets(s, Worker(s, c), [Work(c)])
  {
    assert [Work(c)][1..] == [];
  }

  lemma {:induction false} WorkerGetsOneMore(s: Sys, t: Sys, actions: seq<Action>, c: Choice)
    requires WorkerGets(s, t, actions) && (t.phase != Idle || t.queue != [])
    ensures WorkerGets(s, Worker(t, c), actions + [Work(c)])
    decreases |actions|
  {
    var all := actions + [Work(c)];
    assert forall a | a in all :: a in actions || a == Work(c);
    if actions == [] {
      assert all == [Work(c)] && all[1..] == [];
    } else {
      assert all[1..] == actions[1..] + [Work(c)];
      assert forall a | a in actions[1..] :: a in actions;
      WorkerGetsOneMore(Step(s, actions[0]), t, actions[1..], c);
    }
  }

  lemma {:induction false} WorkerGetsOn(s: Sys, t: Sys, u: Sys, first: seq<Action>, next: seq<Action>)
    requires WorkerGets(s, t, first) && WorkerGets(t, u, next)
    ensures WorkerGets(s, u, first + next)
    decreases |first|
  {
    var all := first + next;
    assert forall a | a in all :: a in first || a in next;
    if first == [] {
      assert all == next;
    } else {
      assert all[1..] == first[1..] + next;
      assert forall a | a in first[1..] :: a in first;
      WorkerGetsOn(Step(s, first[0]), t, u, first[1..], next);
    }
  }

  /** Nothing but the worker's job and the lock has changed. */
  ghost predicate OnlyJobChanged(s: Sys, t: Sys, job: JobId)
  {
    && t.enqueued == s.enqueued && t.queue == s.queue
    && t.sched == s.sched.(holder := t.sched.holder)
    && t.store.Keys == s.store.Keys
    && forall j | j in s.store && j != job :: t.store[j] == s.store[j]
  }

  lemma WorkerChangesOnlyItsJob(s: Sys, c: Choice)
    requires SysInv(s) && s.phase != Idle
    ensures OnlyJobChanged(s, Worker(s, c), s.phase.job)
    ensures Worker(s, c).succeeded ==
      if s.phase.InRunner? && c == Succeeds then s.succeeded + {s.phase.job} else s.succeeded
  {
    assert JobOk(s, s.phase.job);
  }

  /** The worker's steps on one job, from s to t. */
  ghost predicate Handles(s: Sys, t: Sys, job: JobId, actions: seq<Action>)
  {
    WorkerGets(s, t, actions) && OnlyJobChanged(s, t, job)
  }

  lemma HandlesOneMore(s: Sys, t: Sys, job: JobId, actions: seq<Action>, c: Choice)
    requires Handles(s, t, job, actions) && SysInv(t) && AtWorker(t, job)
    ensures Handles(s, Worker(t, c), job, actions + [Work(c)])
    ensures Worker(t, c).succeeded == if t.phase.InRunner? && c == Succeeds then t.succeeded + {job} else t.succeeded
  {
    WorkerGetsOneMore(s, t, actions, c);
    WorkerChangesOnlyItsJob(t, c);
  }

  lemma HandlesOn(s: Sys, t: Sys, u: Sys, job: JobId, first: seq<Action>, next: seq<Action>)
    requires Handles(s, t, job, first) && Handles(t, u, job, next)
    ensures Handles(s, u, job, first + next)
  {
    WorkerGetsOn(s, t, u, first, next);
  }

  /** Taking the lock succeeds exactly for a named job while no model is Active, and changes no status. */
  lemma LockIsTakenIff(s: Sys, job: JobId, c: Choice)
    requires SysInv(s) && s.phase == Taken(job)
    ensures Worker(s, c).phase == Locked(job) <==> job != "" && NoneActive(s.sched)
    ensures Worker(s, c).store == s.store
    ensures Handles(s, Worker(s, c), job, [Work(c)]) && Worker(s, c).succeeded == s.succeeded
  {
    NoActiveNames(s.sched.models);
    HandlesOneMore(s, s, job, [], c);
    assert [] + [Work(c)] == [Work(c)];
  }

  /** A stored job that is enqueued with nothing else queued is given to the runner and COMPLETED, when no model is
      Active and the injected parts succeed. */
  lemma EnqueuedJobCompletes(s: Sys, j: JobId)
    requires SysInv(s) && s.phase == Idle && s.queue == [] && NoneActive(s.sched)
    requires j in s.store && j != "" && j !in s.putting && j !in s.enqueued
    ensures var marked := Step(s, EnqueueMark(j));
      var queued := Step(marked, EnqueuePut(j));
      && marked.store == s.store[j := Queued] && queued.store == s.store[j := Queued] && queued.queue == [j]
      && var t := Succeeding(queued, 7);
      && t.phase == Idle && t.queue == [] && t.store == s.store[j := Completed]
      && j in t.given && j in t.succeeded && t.sched == s.sched
  {
    NoActiveNames(s.sched.models);
    var queued := Step(Step(s, EnqueueMark(j)), EnqueuePut(j));
    assert queued.queue[1..] == [];
    var locked := Worker(Worker(queued, Succeeds), Succeeds);
    assert locked.phase == Locked(j) && locked.store == s.store[j := Queued];
    var running := Worker(Worker(locked, Succeeds), Succeeds);
    assert running.phase == InRunner(j) && running.store == s.store[j := Running];
    var released := Worker(Worker(running, Succeeds), Succeeds);
    assert released.phase == Releasing(j, false) && released.store == s.store[j := Completed];
    assert Succeeding(queued, 7) == Succeeding(locked, 5);
    assert Succeeding(locked, 5) == Succeeding(running, 3);
    assert Succeeding(running, 3) == Succeeding(released, 1);
    assert Succeeding(released, 1) == Worker(released, Succeeds);
  }

  /** At most n steps of the worker, in which nothing raises; fewer if it has nothing left to do. */
  function Succeeding(s: Sys, n: nat): Sys
    decreases n
  {
    if n == 0 || (s.phase == Idle && s.queue == []) then s else Succeeding(Worker(s, Succeeds), n - 1)
  }
}
